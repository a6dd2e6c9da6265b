/** The single device allocation of the GPU matcher and the pointers computed into it. */
module DeviceLayout {
  import opened Strings

  datatype Region = Region(start: nat, len: nat)

  /** The integer allocation made at build time. */
  function Allocation(maxs: nat, nThreads: nat, bufferSize: nat): nat {
    (maxs * MAXC + maxs + maxs) + 1 + nThreads + 2 * nThreads * bufferSize
  }

  /** The pointers computed by the builder. */
  function BuildG(nThreads: nat): nat { 1 + nThreads }
  function BuildF(maxs: nat, nThreads: nat): nat { BuildG(nThreads) + maxs * MAXC }
  function BuildOut(maxs: nat, nThreads: nat): nat { BuildF(maxs, nThreads) + maxs }

  /** The pointers computed by `exec` in thread `id`, with `n` the number of registered threads. */
  function NPacket(id: nat): nat { 1 + 1 * id }
  function ExecG(n: nat): nat { 1 + n }
  function ExecF(maxs: nat, n: nat): nat { ExecG(n) + maxs * MAXC }
  function ExecOut(maxs: nat, n: nat): nat { ExecF(maxs, n) + maxs }
  function SizePacket(maxs: nat, n: nat, bufferSize: nat, id: nat): nat {
    ExecOut(maxs, n) + maxs + id * bufferSize
  }
  function BeginPacket(maxs: nat, n: nat, bufferSize: nat, id: nat): nat {
    ExecOut(maxs, n) + maxs + n * bufferSize + id * bufferSize
  }

  /** `k` adjacent slices of `len` from `start`. */
  function Slices(start: nat, len: nat, k: nat): seq<Region> {
    seq(k, i requires 0 <= i => Region(start + i * len, len))
  }

  /** Every region `exec` may use, over all threads: the buffer size, one count per thread, the three
      tables, then one size slice and one begin slice per thread. */
  function Regions(maxs: nat, n: nat, bufferSize: nat): seq<Region> {
    [Region(0, 1)] + Slices(1, 1, n)
    + [Region(ExecG(n), maxs * MAXC), Region(ExecF(maxs, n), maxs), Region(ExecOut(maxs, n), maxs)]
    + Slices(SizePacket(maxs, n, bufferSize, 0), bufferSize, n)
    + Slices(BeginPacket(maxs, n, bufferSize, 0), bufferSize, n)
  }

  /** The regions follow one another without gap or overlap from `from` to `to`. */
  ghost predicate Tiles(rs: seq<Region>, from: nat, to: nat) {
    if rs == [] then from == to
    else rs[0].start == from && Tiles(rs[1..], from + rs[0].len, to)
  }

  lemma {:induction false} TilesAppend(a: seq<Region>, b: seq<Region>, from: nat, mid: nat, to: nat)
    requires Tiles(a, from, mid) && Tiles(b, mid, to)
    ensures Tiles(a + b, from, to)
  {
    if a == [] {
      assert a + b == b;
    } else {
      TilesAppend(a[1..], b, from + a[0].len, mid, to);
      assert (a + b)[1..] == a[1..] + b;
    }
  }

  lemma {:induction false} SlicesTile(start: nat, len: nat, k: nat)
    ensures Tiles(Slices(start, len, k), start, start + k * len)
    decreases k
  {
    if k == 0 {
    } else {
      SlicesTile(start + len, len, k - 1);
      var rest := Slices(start + len, len, k - 1);
      var all := Slices(start, len, k);
      forall i | 0 <= i < k - 1 ensures all[1..][i] == rest[i] { Shift(start, len, i); }
      assert all[1..] == rest;
      Shift(start, len, k - 1);
    }
  }

  lemma Shift(start: nat, len: nat, i: nat)
    ensures start + (i + 1) * len == start + len + i * len
  {
  }

  /** Tiling regions lie inside, and any two are disjoint. */
  lemma {:induction false} TilesInside(rs: seq<Region>, from: nat, to: nat, i: nat)
    requires Tiles(rs, from, to) && i < |rs|
    ensures from <= rs[i].start && rs[i].start + rs[i].len <= to
  {
    if i == 0 {
      TilesOrdered(rs[1..], from + rs[0].len, to);
    } else {
      TilesInside(rs[1..], from + rs[0].len, to, i - 1);
    }
  }

  lemma {:induction false} TilesOrdered(rs: seq<Region>, from: nat, to: nat)
    requires Tiles(rs, from, to)
    ensures from <= to
  {
    if rs == [] {
    } else {
      TilesOrdered(rs[1..], from + rs[0].len, to);
    }
  }

  lemma {:induction false} TilesDisjoint(rs: seq<Region>, from: nat, to: nat, i: nat, j: nat)
    requires Tiles(rs, from, to) && i < j < |rs|
    ensures rs[i].start + rs[i].len <= rs[j].start
  {
    if i == 0 {
      TilesInside(rs[1..], from + rs[0].len, to, j - 1);
    } else {
      TilesDisjoint(rs[1..], from + rs[0].len, to, i - 1, j - 1);
    }
  }

  /** With as many threads registered as the builder was given, the regions of `exec` tile the
      allocation exactly. */
  lemma RegionsTile(maxs: nat, n: nat, bufferSize: nat)
    ensures Tiles(Regions(maxs, n, bufferSize), 0, Allocation(maxs, n, bufferSize))
  {
    var front := [Region(0, 1)] + Slices(1, 1, n)
                 + [Region(ExecG(n), maxs * MAXC), Region(ExecF(maxs, n), maxs), Region(ExecOut(maxs, n), maxs)];
    var s, b, end := SizePacket(maxs, n, bufferSize, 0), BeginPacket(maxs, n, bufferSize, 0), Allocation(maxs, n, bufferSize);
    FrontTiles(maxs, n);
    assert b == s + n * bufferSize && end == b + n * bufferSize by { Twice(n, bufferSize); }
    SlicesTile(s, bufferSize, n);
    TilesAppend(front, Slices(s, bufferSize, n), 0, s, b);
    SlicesTile(b, bufferSize, n);
    TilesAppend(front + Slices(s, bufferSize, n), Slices(b, bufferSize, n), 0, b, end);
  }

  lemma FrontTiles(maxs: nat, n: nat)
    ensures Tiles([Region(0, 1)] + Slices(1, 1, n)
                  + [Region(ExecG(n), maxs * MAXC), Region(ExecF(maxs, n), maxs), Region(ExecOut(maxs, n), maxs)],
                  0, ExecOut(maxs, n) + maxs)
  {
    var tables := [Region(ExecG(n), maxs * MAXC), Region(ExecF(maxs, n), maxs), Region(ExecOut(maxs, n), maxs)];
    assert Tiles([Region(0, 1)], 0, 1);
    SlicesTile(1, 1, n);
    TilesAppend([Region(0, 1)], Slices(1, 1, n), 0, 1, ExecG(n));
    TablesTile(maxs, n);
    TilesAppend([Region(0, 1)] + Slices(1, 1, n), tables, 0, ExecG(n), ExecOut(maxs, n) + maxs);
  }

  lemma Twice(n: nat, bufferSize: nat)
    ensures 2 * n * bufferSize == n * bufferSize + n * bufferSize
  {
  }

  lemma TablesTile(maxs: nat, n: nat)
    ensures Tiles([Region(ExecG(n), maxs * MAXC), Region(ExecF(maxs, n), maxs), Region(ExecOut(maxs, n), maxs)],
                  ExecG(n), ExecOut(maxs, n) + maxs)
  {
    var a, b, c := Region(ExecG(n), maxs * MAXC), Region(ExecF(maxs, n), maxs), Region(ExecOut(maxs, n), maxs);
    var to := ExecOut(maxs, n) + maxs;
    assert [c][1..] == [] && Tiles([c], ExecOut(maxs, n), to);
    assert [b, c][1..] == [c] && Tiles([b, c], ExecF(maxs, n), to);
    assert [a, b, c][1..] == [b, c];
  }

  /** Where each pointer of thread `id` stands among the regions. */
  lemma ThreadRegions(maxs: nat, n: nat, bufferSize: nat, id: nat)
    requires id < n
    ensures var rs := Regions(maxs, n, bufferSize);
            && |rs| == 4 + 3 * n
            && rs[1 + id] == Region(NPacket(id), 1)
            && rs[1 + n] == Region(ExecG(n), maxs * 127)
            && rs[2 + n] == Region(ExecF(maxs, n), maxs)
            && rs[3 + n] == Region(ExecOut(maxs, n), maxs)
            && rs[4 + n + id] == Region(SizePacket(maxs, n, bufferSize, id), bufferSize)
            && rs[4 + 2 * n + id] == Region(BeginPacket(maxs, n, bufferSize, id), bufferSize)
  {
    var s, b := SizePacket(maxs, n, bufferSize, 0), BeginPacket(maxs, n, bufferSize, 0);
    assert Slices(1, 1, n)[id] == Region(NPacket(id), 1);
    assert Slices(s, bufferSize, n)[id] == Region(SizePacket(maxs, n, bufferSize, id), bufferSize);
    assert Slices(b, bufferSize, n)[id] == Region(BeginPacket(maxs, n, bufferSize, id), bufferSize);
  }

  /** The slices of an earlier thread end before those of a later one begin. */
  lemma ThreadsInOrder(maxs: nat, n: nat, bufferSize: nat, lo: nat, hi: nat)
    requires lo < hi < n
    ensures SizePacket(maxs, n, bufferSize, lo) + bufferSize <= SizePacket(maxs, n, bufferSize, hi)
    ensures BeginPacket(maxs, n, bufferSize, lo) + bufferSize <= BeginPacket(maxs, n, bufferSize, hi)
  {
    ThreadRegions(maxs, n, bufferSize, lo);
    ThreadRegions(maxs, n, bufferSize, hi);
    RegionBefore(maxs, n, bufferSize, 4 + n + lo, 4 + n + hi);
    RegionBefore(maxs, n, bufferSize, 4 + 2 * n + lo, 4 + 2 * n + hi);
  }

  /** The goto table ends before the failure links, these before the outputs; every size slice ends before
      any begin slice, and all lie between the tables and the end. */
  lemma KindsApart(maxs: nat, n: nat, bufferSize: nat, id: nat, other: nat)
    requires id < n && other < n
    ensures NPacket(id) < ExecG(n) && ExecG(n) + maxs * MAXC <= ExecF(maxs, n) && ExecF(maxs, n) + maxs <= ExecOut(maxs, n)
    ensures ExecOut(maxs, n) + maxs <= SizePacket(maxs, n, bufferSize, id)
    ensures SizePacket(maxs, n, bufferSize, id) + bufferSize <= BeginPacket(maxs, n, bufferSize, other)
    ensures BeginPacket(maxs, n, bufferSize, other) + bufferSize <= Allocation(maxs, n, bufferSize)
  {
    ThreadRegions(maxs, n, bufferSize, id);
    ThreadRegions(maxs, n, bufferSize, other);
    RegionBefore(maxs, n, bufferSize, 3 + n, 4 + n + id);
    RegionBefore(maxs, n, bufferSize, 4 + n + id, 4 + 2 * n + other);
  }

  /** Each region ends before every later one begins, and inside the allocation. */
  lemma RegionBefore(maxs: nat, n: nat, bufferSize: nat, i: nat, j: nat)
    requires i < j < |Regions(maxs, n, bufferSize)|
    ensures var rs := Regions(maxs, n, bufferSize);
            && rs[i].start + rs[i].len <= rs[j].start
            && rs[j].start + rs[j].len <= Allocation(maxs, n, bufferSize)
  {
    var rs, total := Regions(maxs, n, bufferSize), Allocation(maxs, n, bufferSize);
    RegionsTile(maxs, n, bufferSize);
    TilesDisjoint(rs, 0, total, i, j);
    TilesInside(rs, 0, total, j);
  }

  /** Where `exec` puts the packed bytes of thread `id`, in an array of `nThreads * bufferSize` bytes. */
  function PacketBytes(bufferSize: nat, id: nat): nat { id * bufferSize }

  /** The packed bytes of the threads tile their array. */
  lemma PacketsTile(n: nat, bufferSize: nat, id: nat)
    requires id < n
    ensures Tiles(Slices(0, bufferSize, n), 0, n * bufferSize)
    ensures Slices(0, bufferSize, n)[id] == Region(PacketBytes(bufferSize, id), bufferSize)
  {
    SlicesTile(0, bufferSize, n);
  }

  /** The tables `exec` reads are the tables the builder copied exactly when every thread the
      builder was told of has registered. */
  lemma PointersAgree(maxs: nat, n: nat, nThreads: nat)
    ensures (ExecG(n) == BuildG(nThreads) && ExecF(maxs, n) == BuildF(maxs, nThreads)
             && ExecOut(maxs, n) == BuildOut(maxs, nThreads)) <==> n == nThreads
  {
  }
}
