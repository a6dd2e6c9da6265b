/** The packet buffer of the GPU matcher: when batches are flushed and how they are packed. */
module Batching {
  import opened Strings

  function Total(pkts: seq<Word>): nat {
    if pkts == [] then 0 else Total(pkts[..|pkts| - 1]) + |pkts[|pkts| - 1]|
  }

  lemma {:induction false} TotalSplit(pkts: seq<Word>, k: nat)
    requires k <= |pkts|
    ensures Total(pkts[..k]) <= Total(pkts)
    ensures forall i :: 0 <= i < k ==> |pkts[i]| <= Total(pkts)
  {
    if k < |pkts| {
      TotalSplit(pkts[..|pkts| - 1], k);
      assert pkts[..|pkts| - 1][..k] == pkts[..k];
    } else if k > 0 {
      TotalSplit(pkts[..|pkts| - 1], k - 1);
      assert pkts[..k] == pkts;
    }
  }

  lemma TotalSnoc(pkts: seq<Word>, p: Word)
    ensures Total(pkts + [p]) == Total(pkts) + |p|
  {
    assert (pkts + [p])[..|pkts|] == pkts;
  }

  // ----- the buffer as a state machine -----

  datatype Buffer = Buffer(pkts: seq<Word>, size: nat)

  datatype Flush = None | Batch(pkts: seq<Word>)

  /** One packet received: it is buffered, and when the limit is reached everything before it goes. */
  function Receive(limit: nat, s: Buffer, pkt: Word): (Buffer, Flush) {
    if s.size + |pkt| >= limit then (Buffer([pkt], |pkt|), Batch(s.pkts))
    else (Buffer(s.pkts + [pkt], s.size + |pkt|), None)
  }

  /** The size is the sum of the buffered payloads; it reaches the limit only on a single packet. */
  ghost predicate BufferOK(limit: nat, s: Buffer) {
    s.size == Total(s.pkts) && (s.size < limit || |s.pkts| <= 1)
  }

  /** The batches flushed while receiving `pkts`, and the buffer left. */
  function Run(limit: nat, pkts: seq<Word>): (seq<seq<Word>>, Buffer) {
    if pkts == [] then ([], Buffer([], 0))
    else
      var (done, s) := Run(limit, pkts[..|pkts| - 1]);
      match Receive(limit, s, pkts[|pkts| - 1])
      case (s', None) => (done, s')
      case (s', Batch(b)) => (done + [b], s')
  }

  function Concat(batches: seq<seq<Word>>): seq<Word> {
    if batches == [] then [] else Concat(batches[..|batches| - 1]) + batches[|batches| - 1]
  }

  /** A batch totals less than the limit, or is a single packet. */
  ghost predicate GoodBatch(limit: nat, b: seq<Word>) {
    Total(b) < limit || |b| <= 1
  }

  /** Receiving keeps the buffer invariant and order, and flushes only good batches. */
  lemma ReceiveKeeps(limit: nat, s: Buffer, p: Word)
    requires BufferOK(limit, s)
    ensures var (s', f) := Receive(limit, s, p);
            && BufferOK(limit, s')
            && (f.None? ==> s'.pkts == s.pkts + [p])
            && (f.Batch? ==> f.pkts + s'.pkts == s.pkts + [p] && GoodBatch(limit, f.pkts))
  {
    assert Total([p]) == |p| by { TotalSnoc([], p); assert [] + [p] == [p]; }
    if s.size + |p| < limit {
      assert Total(s.pkts + [p]) == s.size + |p| by { TotalSnoc(s.pkts, p); }
    }
  }

  ghost predicate GoodBatches(limit: nat, batches: seq<seq<Word>>) {
    forall i :: 0 <= i < |batches| ==> GoodBatch(limit, batches[i])
  }

  ghost predicate Keeps(limit: nat, pkts: seq<Word>, done: seq<seq<Word>>, s: Buffer) {
    Concat(done) + s.pkts == pkts && BufferOK(limit, s) && GoodBatches(limit, done)
  }

  lemma KeepsNext(limit: nat, pkts: seq<Word>, done: seq<seq<Word>>, s: Buffer, p: Word)
    requires Keeps(limit, pkts, done, s)
    ensures var (s', f) := Receive(limit, s, p);
            Keeps(limit, pkts + [p], if f.None? then done else done + [f.pkts], s')
  {
    ReceiveKeeps(limit, s, p);
    var (s', f) := Receive(limit, s, p);
    if f.None? {
      assert Concat(done) + (s.pkts + [p]) == Concat(done) + s.pkts + [p];
    } else {
      ConcatSnoc(done, f.pkts);
      assert Concat(done) + f.pkts + s'.pkts == Concat(done) + (f.pkts + s'.pkts) == Concat(done) + s.pkts + [p];
    }
  }

  /** Over every run nothing is lost, repeated or reordered, the size is exact, and every flushed
      batch totals less than the limit or is one packet. */
  lemma {:induction false} RunKeepsPackets(limit: nat, pkts: seq<Word>)
    ensures var (done, s) := Run(limit, pkts);
            Keeps(limit, pkts, done, s)
  {
    if pkts == [] {
    } else {
      var init, p := pkts[..|pkts| - 1], pkts[|pkts| - 1];
      assert pkts == init + [p];
      RunKeepsPackets(limit, init);
      KeepsNext(limit, init, Run(limit, init).0, Run(limit, init).1, p);
    }
  }

  lemma ConcatSnoc(batches: seq<seq<Word>>, b: seq<Word>)
    ensures Concat(batches + [b]) == Concat(batches) + b
  {
    assert (batches + [b])[..|batches|] == batches;
  }

  lemma {:induction false} ConcatAt(batches: seq<seq<Word>>, i: nat, k: nat)
    requires i < |batches| && k < |batches[i]|
    ensures var at := |Concat(batches[..i])| + k;
            at < |Concat(batches)| && Concat(batches)[at] == batches[i][k]
  {
    var init := batches[..|batches| - 1];
    if i < |init| {
      ConcatAt(init, i, k);
      assert init[..i] == batches[..i];
    } else {
      assert batches[..i] == init;
    }
  }

  /** Packet k of the i-th batch is the packet received after those of the earlier batches. */
  lemma PacketOfBatch(limit: nat, pkts: seq<Word>, i: nat, k: nat)
    requires i < |Run(limit, pkts).0| && k < |Run(limit, pkts).0[i]|
    ensures var done := Run(limit, pkts).0;
            var at := |Concat(done[..i])| + k;
            at < |pkts| && done[i][k] == pkts[at] && GoodBatch(limit, done[i])
  {
    RunKeepsPackets(limit, pkts);
    ConcatAt(Run(limit, pkts).0, i, k);
  }

  ghost predicate NonEmpty(pkts: seq<Word>) {
    forall i :: 0 <= i < |pkts| ==> pkts[i] != []
  }

  lemma {:induction false} NonEmptyCount(pkts: seq<Word>)
    requires NonEmpty(pkts)
    ensures |pkts| <= Total(pkts)
  {
    if pkts == [] {
    } else {
      NonEmptyCount(pkts[..|pkts| - 1]);
    }
  }

  lemma {:induction false} ConcatNonEmpty(batches: seq<seq<Word>>, i: nat)
    requires i < |batches| && NonEmpty(Concat(batches))
    ensures NonEmpty(batches[i])
  {
    var init, last := batches[..|batches| - 1], batches[|batches| - 1];
    var all := Concat(batches);
    assert all == Concat(init) + last;
    if i < |init| {
      assert forall k :: 0 <= k < |Concat(init)| ==> Concat(init)[k] == all[k];
      ConcatNonEmpty(init, i);
    } else {
      assert forall k :: 0 <= k < |last| ==> last[k] == all[|Concat(init)| + k];
    }
  }

  /** Without empty payloads no batch has more packets than a thread's slice has entries ... */
  lemma BatchesFitSlices(limit: nat, pkts: seq<Word>, i: nat)
    requires limit > 0 && NonEmpty(pkts) && i < |Run(limit, pkts).0|
    ensures |Run(limit, pkts).0[i]| <= limit
  {
    RunKeepsPackets(limit, pkts);
    var (done, s) := Run(limit, pkts);
    assert forall k :: 0 <= k < |Concat(done)| ==> Concat(done)[k] == pkts[k];
    ConcatNonEmpty(done, i);
    NonEmptyCount(done[i]);
  }

  lemma {:induction false} EmptyPacketsPileUp(limit: nat, n: nat)
    requires limit > 0
    ensures Run(limit, seq(n, _ => [])) == ([], Buffer(seq(n, _ => []), 0))
  {
    var pkts: seq<Word> := seq(n, _ => []);
    if n > 0 {
      EmptyPacketsPileUp(limit, n - 1);
      var init: seq<Word> := seq(n - 1, _ => []);
      assert pkts[..n - 1] == init && init + [[]] == pkts;
    }
  }

  /** ... but empty payloads pile up: `limit + 1` of them are flushed as one batch. */
  lemma SliceOverflow(limit: nat, p: Word)
    requires limit > 0 && |p| >= limit
    ensures var many: seq<Word> := seq(limit + 1, _ => []);
            Run(limit, many + [p]).0 == [many]
  {
    var many: seq<Word> := seq(limit + 1, _ => []);
    EmptyPacketsPileUp(limit, limit + 1);
    assert (many + [p])[..limit + 1] == many;
  }

  /** Every payload has at least `k` bytes. */
  ghost predicate AtLeast(k: nat, pkts: seq<Word>) {
    forall i :: 0 <= i < |pkts| ==> |pkts[i]| >= k
  }

  /** Every batch flushed while receiving `pkts` has an entry in a slice for each packet. */
  ghost predicate AllFit(limit: nat, pkts: seq<Word>) {
    forall i :: 0 <= i < |Run(limit, pkts).0| ==> |Run(limit, pkts).0[i]| <= limit
  }

  /** All runs over payloads of at least `k` bytes flush only batches that fit exactly when k is not 0. */
  lemma SlicesSuffice(limit: nat, k: nat)
    requires limit > 0
    ensures (forall pkts :: AtLeast(k, pkts) ==> AllFit(limit, pkts)) <==> k >= 1
  {
    if k >= 1 {
      forall pkts | AtLeast(k, pkts) ensures AllFit(limit, pkts) {
        forall i | 0 <= i < |Run(limit, pkts).0| ensures |Run(limit, pkts).0[i]| <= limit {
          BatchesFitSlices(limit, pkts, i);
        }
      }
    } else {
      var p: Word := seq(limit, _ => 0);
      var many: seq<Word> := seq(limit + 1, _ => []);
      SliceOverflow(limit, p);
      assert AtLeast(k, many + [p]) && Run(limit, many + [p]).0[0] == many;
    }
  }

  // ----- where the batches are cut -----

  /** From the packet after `a` on, and from `a` itself when nothing has been flushed yet, no packet before
      `b` brings what is held from `a` to the limit. */
  ghost predicate Waits(limit: nat, pkts: seq<Word>, a: nat, b: nat, first: bool) {
    b <= |pkts| && forall k: nat :: (if first then a else a + 1) <= k < b ==> HeldTo(pkts, a, k) < limit
  }

  /** The bytes of the packets from `a` to `k`. */
  function HeldTo(pkts: seq<Word>, a: nat, k: nat): nat {
    if a <= k < |pkts| then Total(pkts[a..k + 1]) else 0
  }

  /** The batch [a, b) is flushed by the packet `b`, the first to bring what is held to the limit. */
  ghost predicate CutAt(limit: nat, pkts: seq<Word>, a: nat, b: nat, batch: seq<Word>, first: bool) {
    a <= b < |pkts| && batch == pkts[a..b] && Waits(limit, pkts, a, b, first) && HeldTo(pkts, a, b) >= limit
  }

  ghost predicate CutsOK(limit: nat, pkts: seq<Word>, done: seq<seq<Word>>) {
    forall i :: 0 <= i < |done| ==> CutOK(limit, pkts, done, i)
  }

  /** Batch `i` is cut at the limit. */
  ghost predicate CutOK(limit: nat, pkts: seq<Word>, done: seq<seq<Word>>, i: nat)
    requires i < |done|
  {
    CutAt(limit, pkts, |Concat(done[..i])|, |Concat(done[..i + 1])|, done[i], i == 0)
  }

  /** Every batch was cut at the limit, and what is left in the buffer waits. */
  ghost predicate Flushed(limit: nat, pkts: seq<Word>, done: seq<seq<Word>>, s: Buffer) {
    && CutsOK(limit, pkts, done)
    && |Concat(done)| <= |pkts| && s.pkts == pkts[|Concat(done)|..] && s.size == Total(s.pkts)
    && Waits(limit, pkts, |Concat(done)|, |pkts|, done == [])
  }

  /** Over every run, each batch goes exactly when the next packet brings what is held to the limit, and
      what is left in the buffer waits. */
  lemma {:induction false} FlushedAtLimit(limit: nat, pkts: seq<Word>)
    ensures Flushed(limit, pkts, Run(limit, pkts).0, Run(limit, pkts).1)
  {
    if pkts == [] {
    } else {
      var init, p := pkts[..|pkts| - 1], pkts[|pkts| - 1];
      var (done, s) := Run(limit, init);
      FlushedAtLimit(limit, init);
      assert pkts == init + [p];
      if s.size + |p| >= limit { FlushNext(limit, init, p, done, s); } else { HoldNext(limit, init, p, done, s); }
    }
  }

  lemma HeldNext(init: seq<Word>, p: Word, a: nat)
    requires a <= |init|
    ensures HeldTo(init + [p], a, |init|) == Total(init[a..]) + |p|
  {
    assert (init + [p])[a..|init| + 1] == init[a..] + [p];
    TotalSnoc(init[a..], p);
  }

  lemma HoldNext(limit: nat, init: seq<Word>, p: Word, done: seq<seq<Word>>, s: Buffer)
    requires Flushed(limit, init, done, s) && s.size + |p| < limit
    ensures Flushed(limit, init + [p], done, Buffer(s.pkts + [p], s.size + |p|))
  {
    var a := |Concat(done)|;
    CutsExtend(limit, init, p, done);
    WaitsExtends(limit, init, p, a, |init|, done == []);
    HeldNext(init, p, a);
    TotalSnoc(s.pkts, p);
    assert (init + [p])[a..] == init[a..] + [p];
  }

  lemma FlushNext(limit: nat, init: seq<Word>, p: Word, done: seq<seq<Word>>, s: Buffer)
    requires Flushed(limit, init, done, s) && s.size + |p| >= limit
    ensures Flushed(limit, init + [p], done + [s.pkts], Buffer([p], |p|))
  {
    var a, pkts := |Concat(done)|, init + [p];
    assert CutAt(limit, pkts, a, |init|, s.pkts, done == []) by {
      WaitsExtends(limit, init, p, a, |init|, done == []);
      HeldNext(init, p, a);
      assert pkts[a..|init|] == init[a..];
    }
    CutsExtend(limit, init, p, done);
    CutLast(limit, pkts, done, s.pkts);
    assert |Concat(done + [s.pkts])| == |init| by { ConcatSnoc(done, s.pkts); }
    assert pkts[|init|..] == [p] && Total([p]) == |p| by { TotalSnoc([], p); assert [] + [p] == [p]; }
  }

  lemma WaitsExtends(limit: nat, init: seq<Word>, p: Word, a: nat, b: nat, first: bool)
    requires Waits(limit, init, a, b, first)
    ensures Waits(limit, init + [p], a, b, first)
  {
    forall k: nat | (if first then a else a + 1) <= k < b ensures HeldTo(init + [p], a, k) < limit {
      assert HeldTo(init, a, k) < limit && (init + [p])[a..k + 1] == init[a..k + 1];
    }
  }

  lemma CutExtends(limit: nat, init: seq<Word>, p: Word, a: nat, b: nat, batch: seq<Word>, first: bool)
    requires CutAt(limit, init, a, b, batch, first)
    ensures CutAt(limit, init + [p], a, b, batch, first)
  {
    WaitsExtends(limit, init, p, a, b, first);
    assert (init + [p])[a..b] == init[a..b] && (init + [p])[a..b + 1] == init[a..b + 1];
  }

  lemma CutsExtend(limit: nat, init: seq<Word>, p: Word, done: seq<seq<Word>>)
    requires CutsOK(limit, init, done)
    ensures CutsOK(limit, init + [p], done)
  {
    forall i: nat | i < |done| ensures CutOK(limit, init + [p], done, i) {
      assert CutOK(limit, init, done, i);
      CutExtends(limit, init, p, |Concat(done[..i])|, |Concat(done[..i + 1])|, done[i], i == 0);
    }
  }

  lemma CutLast(limit: nat, pkts: seq<Word>, done: seq<seq<Word>>, batch: seq<Word>)
    requires CutsOK(limit, pkts, done) && pkts != [] && |Concat(done)| <= |pkts| - 1
    requires CutAt(limit, pkts, |Concat(done)|, |pkts| - 1, batch, done == [])
    ensures CutsOK(limit, pkts, done + [batch])
  {
    var more := done + [batch];
    forall i: nat | i < |more| ensures CutOK(limit, pkts, more, i) {
      if i < |done| { CutKept(limit, pkts, done, batch, i); } else { CutAdded(limit, pkts, done, batch); }
    }
  }

  lemma CutKept(limit: nat, pkts: seq<Word>, done: seq<seq<Word>>, batch: seq<Word>, i: nat)
    requires i < |done| && CutOK(limit, pkts, done, i)
    ensures CutOK(limit, pkts, done + [batch], i)
  {
    var more := done + [batch];
    assert more[..i] == done[..i] && more[..i + 1] == done[..i + 1];
  }

  lemma CutAdded(limit: nat, pkts: seq<Word>, done: seq<seq<Word>>, batch: seq<Word>)
    requires pkts != [] && |Concat(done)| <= |pkts| - 1
    requires CutAt(limit, pkts, |Concat(done)|, |pkts| - 1, batch, done == [])
    ensures CutOK(limit, pkts, done + [batch], |done|)
  {
    var more := done + [batch];
    assert more[..|done|] == done && more[..|more|] == more;
    assert |Concat(more)| == |Concat(done)| + |batch| by { ConcatSnoc(done, batch); }
  }

  // ----- packing -----

  /** The part of a packet that is copied. */
  function Clip(p: Word, limit: nat): (r: Word)
    ensures r <= p && |r| == if |p| <= limit then |p| else limit
  {
    if |p| < limit then p else p[..limit]
  }

  lemma TakeHead(s: Word, n: nat)
    requires 0 < n <= |s|
    ensures s[..n] == [s[0]] + s[1..][..n - 1]
  {
    var t := [s[0]] + s[1..][..n - 1];
    forall k | 0 <= k < n ensures s[..n][k] == t[k] {
      if k > 0 { assert s[1..][k - 1] == s[k]; }
    }
  }

  /** `strncpy(dst, src, n)`: after a NUL only NULs follow. */
  function StrNCpy(src: Word, n: nat): (r: Word)
    requires n <= |src|
    ensures |r| == n
  {
    if n == 0 then []
    else if src[0] == 0 then seq(n, _ => 0)
    else [src[0]] + StrNCpy(src[1..], n - 1)
  }

  /** Packet `i` of a packed batch is where its entries say. */
  ghost predicate Segment(packet: seq<Chr>, sizes: seq<nat>, begins: seq<nat>, pkts: seq<Word>, limit: nat, i: nat)
    requires i < |sizes| && i < |begins| && i < |pkts|
  {
    && sizes[i] == |Clip(pkts[i], limit)|
    && begins[i] == Total(pkts[..i])
    && begins[i] + sizes[i] <= limit && begins[i] + sizes[i] <= |packet|
    && packet[begins[i]..begins[i] + sizes[i]] == StrNCpy(Clip(pkts[i], limit), sizes[i])
  }

  /** Copy one payload with `strncpy`. */
  method CopyPayload(packet: array<Chr>, index: nat, src: Word, n: nat)
    requires n <= |src| && index + n <= packet.Length
    modifies packet
    ensures packet[index..index + n] == StrNCpy(src, n)
    ensures packet[..index] == old(packet[..index])
  {
    var ended := false;
    ghost var cpy := StrNCpy(src, n);
    for k := 0 to n
      invariant ended <==> 0 in src[..k]
      invariant packet[index..index + k] == cpy[..k]
      invariant packet[..index] == old(packet[..index])
    {
      TakeSnoc(src, k);
      StrNCpyAt(src, n, k);
      if !ended && src[k] == 0 {
        ended := true;
      }
      packet[index + k] := if ended then 0 else src[k];
      TakeSnoc(cpy, k);
    }
  }

  lemma {:induction false} StrNCpyAt(src: Word, n: nat, k: nat)
    requires k < n <= |src|
    ensures StrNCpy(src, n)[k] == if 0 in src[..k + 1] then 0 else src[k]
  {
    NulSplit(src, k);
    if src[0] != 0 && k > 0 {
      assert StrNCpy(src, n) == [src[0]] + StrNCpy(src[1..], n - 1);
      StrNCpyAt(src[1..], n - 1, k - 1);
    }
  }

  lemma NulSplit(src: Word, k: nat)
    requires k < |src|
    ensures 0 in src[..k + 1] <==> src[0] == 0 || 0 in src[1..][..k]
  {
    TakeHead(src, k + 1);
  }

  /** Packets packed so far: each in its segment, segments in order, none past `index`. */
  ghost predicate Packed(packet: seq<Chr>, sizes: seq<nat>, begins: seq<nat>, pkts: seq<Word>, limit: nat, index: nat) {
    && |sizes| == |begins| <= |pkts| && index == Total(pkts[..|sizes|])
    && (forall k: nat :: k < |sizes| ==> Segment(packet, sizes, begins, pkts, limit, k))
    && (forall k: nat :: k < |sizes| ==> begins[k] + sizes[k] <= index)
    && (forall k: nat, l: nat :: k < l < |sizes| ==> begins[k] + sizes[k] <= begins[l])
  }

  /** The packing loop of `exec`. The index advances by the unclipped sizes. */
  method Pack(pkts: seq<Word>, limit: nat)
    returns (packet: array<Chr>, sizes: seq<nat>, begins: seq<nat>)
    requires GoodBatch(limit, pkts)
    ensures fresh(packet) && |sizes| == |begins| == |pkts|
    ensures Packed(packet[..], sizes, begins, pkts, limit, Total(pkts))
  {
    packet := new Chr[limit + 1];
    sizes, begins := [], [];
    var index: nat := 0;
    for i := 0 to |pkts|
      invariant |sizes| == i && packet.Length == limit + 1
      invariant Packed(packet[..], sizes, begins, pkts, limit, index)
    {
      var p := pkts[i];
      var size := if |p| < limit then |p| else limit;
      RoomFor(pkts, limit, i);
      ghost var before := packet[..];
      CopyPayload(packet, index, p, size);
      assert packet[..][index..index + size] == StrNCpy(p, size);
      PackedSnoc(before, packet[..], sizes, begins, pkts, limit, index, size);
      sizes := sizes + [size];
      begins := begins + [index];
      index := index + |p|;
    }
    assert pkts[..|pkts|] == pkts;
  }

  lemma RoomFor(pkts: seq<Word>, limit: nat, i: nat)
    requires GoodBatch(limit, pkts) && i < |pkts|
    ensures Total(pkts[..i]) + |Clip(pkts[i], limit)| <= limit
    ensures Total(pkts[..i + 1]) == Total(pkts[..i]) + |pkts[i]|
  {
    TotalSplit(pkts, i + 1);
    assert pkts[..i + 1][..i] == pkts[..i];
    if |pkts| == 1 { assert pkts[..0] == []; }
  }

  lemma PackedSnoc(before: seq<Chr>, after: seq<Chr>, sizes: seq<nat>, begins: seq<nat>, pkts: seq<Word>,
                   limit: nat, index: nat, size: nat)
    requires GoodBatch(limit, pkts) && Packed(before, sizes, begins, pkts, limit, index) && |sizes| < |pkts|
    requires size == |Clip(pkts[|sizes|], limit)| && |before| == |after| == limit + 1 && index + size <= limit
    requires before[..index] == after[..index]
    requires after[index..index + size] == StrNCpy(pkts[|sizes|], size)
    ensures Packed(after, sizes + [size], begins + [index], pkts, limit, index + |pkts[|sizes|]|)
  {
    var i := |sizes|;
    RoomFor(pkts, limit, i);
    SegmentsKept(before, after, sizes, begins, sizes + [size], begins + [index], pkts, limit, i, index);
    StrNCpyPrefix(pkts[i], Clip(pkts[i], limit), size);
    assert Segment(after, sizes + [size], begins + [index], pkts, limit, i);
  }

  lemma {:induction false} StrNCpyPrefix(a: Word, b: Word, n: nat)
    requires n <= |a| && n <= |b| && a[..n] == b[..n]
    ensures StrNCpy(a, n) == StrNCpy(b, n)
  {
    if n == 0 {
    } else {
      TailsAgree(a, b, n);
      StrNCpyPrefix(a[1..], b[1..], n - 1);
    }
  }

  lemma TailsAgree(a: Word, b: Word, n: nat)
    requires 0 < n <= |a| && n <= |b| && a[..n] == b[..n]
    ensures a[0] == b[0] && a[1..][..n - 1] == b[1..][..n - 1]
  {
    TakeHead(a, n);
    TakeHead(b, n);
    var x, y := a[1..][..n - 1], b[1..][..n - 1];
    assert ([a[0]] + x)[0] == ([b[0]] + y)[0] && ([a[0]] + x)[1..] == x && ([b[0]] + y)[1..] == y;
  }

  lemma SegmentsKept(before: seq<Chr>, after: seq<Chr>, sizes: seq<nat>, begins: seq<nat>,
                     sizes': seq<nat>, begins': seq<nat>, pkts: seq<Word>, limit: nat, n: nat, index: nat)
    requires |sizes| == |begins| == n < |pkts| && sizes <= sizes' && begins <= begins'
    requires index <= |before| == |after| && before[..index] == after[..index]
    requires forall k: nat :: k < n ==> Segment(before, sizes, begins, pkts, limit, k) && begins[k] + sizes[k] <= index
    ensures forall k: nat :: k < n ==> Segment(after, sizes', begins', pkts, limit, k)
  {
    forall k: nat | k < n ensures Segment(after, sizes', begins', pkts, limit, k) {
      assert Segment(before, sizes, begins, pkts, limit, k);
      SliceOfTake(after, index, begins[k], begins[k] + sizes[k]);
      SliceOfTake(before, index, begins[k], begins[k] + sizes[k]);
    }
  }
}
