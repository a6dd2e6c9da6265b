/** The GPU matcher: buffering, packing, and the kernel that scans each packed packet. */
module GPUInspectionModule {
  import opened Strings
  import opened TrieSpec
  import opened Automaton
  import opened CPUInspectionModule
  import opened Batching

  /** What a flush hands to the device. */
  datatype Launch = NoLaunch | Launch(packet: seq<Chr>, sizes: seq<nat>, begins: seq<nat>)

  /** The launch carries the packed batch `pkts`. */
  ghost predicate Carries(launch: Launch, pkts: seq<Word>, limit: nat) {
    && launch.Launch? && |launch.sizes| == |pkts|
    && Packed(launch.packet, launch.sizes, launch.begins, pkts, limit, Total(pkts))
  }

  /** A flushed batch is launched packed; without one there is no launch. */
  ghost predicate Answers(launch: Launch, f: Flush, limit: nat) {
    match f case None => launch.NoLaunch? case Batch(pkts) => Carries(launch, pkts, limit)
  }

  /** What one packet does to the buffer, by the comparison that `exec` makes. */
  ghost predicate Steps(limit: nat, s: Buffer, pkt: Word) {
    var (s', f) := Receive(limit, s, pkt);
    var b := s.pkts + [pkt];
    && BufferOK(limit, s')
    && (s.size + |pkt| < limit ==> s' == Buffer(b, s.size + |pkt|) && f == None)
    && (s.size + |pkt| >= limit ==>
          s' == Buffer(b[|b| - 1..], |pkt|) && f == Batch(b[..|b| - 1]) && GoodBatch(limit, b[..|b| - 1]))
  }

  lemma ReceiveSteps(limit: nat, s: Buffer, pkt: Word)
    requires BufferOK(limit, s)
    ensures Steps(limit, s, pkt)
  {
    ReceiveKeeps(limit, s, pkt);
    var b := s.pkts + [pkt];
    assert b[..|b| - 1] == s.pkts && b[|b| - 1..] == [pkt];
  }

  /** Packs a batch for the device. */
  method PackBatch(pkts: seq<Word>, limit: nat) returns (launch: Launch)
    requires GoodBatch(limit, pkts)
    ensures Carries(launch, pkts, limit)
  {
    var packet, sizes, begins := Pack(pkts, limit);
    launch := Launch(packet[..], sizes, begins);
  }

  class GPUInspection {
    var limitBuffer: nat
    var sizeBuffer: nat
    var buffer: seq<Word>
    var thread: seq<nat>

    constructor (bufferSize: nat)
      ensures Valid() && State() == Buffer([], 0) && limitBuffer == bufferSize && thread == []
    {
      limitBuffer, sizeBuffer, buffer, thread := bufferSize, 0, [], [];
    }

    ghost function State(): Buffer
      reads this
    {
      Buffer(buffer, sizeBuffer)
    }

    ghost predicate Valid()
      reads this
    {
      BufferOK(limitBuffer, State())
    }

    /** The locked part of `exec`: buffer the packet; at the limit, pack and drop all but it. */
    method Exec(pkt: Word) returns (launch: Launch)
      requires Valid()
      modifies this`buffer, this`sizeBuffer
      ensures Valid()
      ensures State() == Receive(limitBuffer, old(State()), pkt).0
      ensures Answers(launch, Receive(limitBuffer, old(State()), pkt).1, limitBuffer)
    {
      ghost var was := State();
      assert Steps(limitBuffer, was, pkt) by { ReceiveSteps(limitBuffer, was, pkt); }
      buffer := buffer + [pkt];
      sizeBuffer := sizeBuffer + |pkt|;
      if sizeBuffer < limitBuffer {
        return NoLaunch;
      }
      launch := PackBatch(buffer[..|buffer| - 1], limitBuffer);
      buffer := buffer[|buffer| - 1..];
      sizeBuffer := |pkt|;
    }

    /** `getIndex`: the place of a thread, registering it when it is new. */
    method GetIndex(pid: nat) returns (index: nat)
      requires NoRepeats(thread)
      modifies this`thread
      ensures NoRepeats(thread) && old(thread) <= thread
      ensures index < |thread| && thread[index] == pid
      ensures thread == if pid in old(thread) then old(thread) else old(thread) + [pid]
    {
      for i := 0 to |thread|
        invariant pid !in thread[..i]
      {
        if thread[i] == pid {
          return i;
        }
      }
      assert thread[..|thread|] == thread;
      thread := thread + [pid];
      return |thread| - 1;
    }
  }

  ghost predicate NoRepeats(s: seq<nat>) {
    forall i, j :: 0 <= i < j < |s| ==> s[i] != s[j]
  }

  /** An index once given is kept while threads register, and belongs to one thread only. */
  lemma IndexStable(before: seq<nat>, after: seq<nat>, i: nat, j: nat)
    requires before <= after && NoRepeats(after) && i < |before| && j < |after|
    ensures before[i] == after[j] <==> i == j
  {
    assert after[i] == before[i];
  }

  /** The first `n` bytes of the packet that begins at `b`. */
  function Bytes(packet: seq<Chr>, b: nat, n: nat): Word
    requires b + n <= |packet|
  {
    packet[b..b + n]
  }

  lemma BytesSnoc(packet: seq<Chr>, b: nat, n: nat)
    requires b + n < |packet|
    ensures Bytes(packet, b, n + 1) == Bytes(packet, b, n) + [packet[b + n]]
  {
  }

  /** The kernel's loop over the packet from `beginPacket`. */
  method KernelScan(g: array<int>, f: array<int>, out: array<set<nat>>, packet: seq<Chr>, beginPacket: nat, sizePacket: nat,
                    ghost ws: seq<Word>, ghost tr: Trie)
    returns (hits: seq<set<nat>>)
    requires Loaded(ws, tr, g, f, out) && beginPacket + sizePacket <= |packet|
    ensures hits == Scan(ws, Bytes(packet, beginPacket, sizePacket))
  {
    var currentState: nat := 0;
    hits := [];
    ghost var seen: Word := Bytes(packet, beginPacket, 0);
    for i := 0 to sizePacket
      invariant seen == Bytes(packet, beginPacket, i)
      invariant AtText(ws, tr, currentState, seen) && hits == Scan(ws, seen)
    {
      var ch := packet[beginPacket + i];
      BytesSnoc(packet, beginPacket, i);
      ScanSnoc(ws, seen, ch);
      var hit;
      ghost var hops;
      currentState, hit, hops := Advance(g, f, out, currentState, ch, ws, tr, seen);
      hits := hits + [hit];
      seen := seen + [ch];
    }
  }

  /** `kernel_exec`: thread `id` scans packet `id`, if there is one. */
  method KernelExec(g: array<int>, f: array<int>, out: array<set<nat>>, launch: Launch, id: nat,
                    ghost ws: seq<Word>, ghost tr: Trie)
    returns (hits: seq<set<nat>>)
    requires Loaded(ws, tr, g, f, out) && Fitting(launch)
    ensures hits == KernelHits(ws, launch, id)
  {
    hits := [];
    if id < |launch.sizes| {
      hits := KernelScan(g, f, out, launch.packet, launch.begins[id], launch.sizes[id], ws, tr);
    }
  }

  /** Every segment lies inside the packed bytes. */
  ghost predicate Fitting(launch: Launch) {
    && launch.Launch? && |launch.begins| == |launch.sizes|
    && forall i :: 0 <= i < |launch.sizes| ==> launch.begins[i] + launch.sizes[i] <= |launch.packet|
  }

  /** What thread `id` of a launch reports: the scan of its segment. */
  ghost function KernelHits(ws: seq<Word>, launch: Launch, id: nat): seq<set<nat>>
    requires Fitting(launch)
  {
    if id < |launch.sizes| then Scan(ws, Bytes(launch.packet, launch.begins[id], launch.sizes[id])) else []
  }

  ghost predicate AllFound(found: seq<seq<set<nat>>>, ws: seq<Word>, launch: Launch)
    requires Fitting(launch)
  {
    forall i: nat :: i < |found| ==> FoundBy(found, ws, launch, i)
  }

  ghost predicate FoundBy(found: seq<seq<set<nat>>>, ws: seq<Word>, launch: Launch, i: nat)
    requires Fitting(launch) && i < |found|
  {
    found[i] == KernelHits(ws, launch, i)
  }

  lemma FoundSnoc(found: seq<seq<set<nat>>>, ws: seq<Word>, launch: Launch, hits: seq<set<nat>>)
    requires Fitting(launch) && AllFound(found, ws, launch) && hits == KernelHits(ws, launch, |found|)
    ensures AllFound(found + [hits], ws, launch)
  {
    var more := found + [hits];
    forall i: nat | i < |more| ensures FoundBy(more, ws, launch, i) {
      assert i < |found| ==> FoundBy(found, ws, launch, i);
    }
  }

  /** The launch of `exec`, one kernel body per index of the grid; the grid reaches every packet. */
  method LaunchKernel(g: array<int>, f: array<int>, out: array<set<nat>>, launch: Launch, ghost ws: seq<Word>, ghost tr: Trie)
    returns (found: seq<seq<set<nat>>>)
    requires Loaded(ws, tr, g, f, out) && Fitting(launch)
    ensures |launch.sizes| <= |found| == (|launch.sizes| / 128 + 1) * 128 && AllFound(found, ws, launch)
  {
    var blocks := |launch.sizes| / 128 + 1;
    found := [];
    for id := 0 to blocks * 128
      invariant |found| == id
      invariant AllFound(found, ws, launch)
    {
      var hits := KernelExec(g, f, out, launch, id, ws, tr);
      FoundSnoc(found, ws, launch, hits);
      found := found + [hits];
    }
  }

  /** The bytes of a packet that reach the device: all of them up to the limit. */
  function Sent(p: Word, limit: nat): nat {
    if |p| <= limit then |p| else limit
  }

  /** A launch reports for a packet one result for each byte sent: at each, up to the first NUL, what the
      CPU scan reports there on the whole payload. */
  lemma LaunchIsScan(launch: Launch, pkts: seq<Word>, limit: nat, i: nat, ws: seq<Word>)
    requires Carries(launch, pkts, limit) && i < |pkts|
    ensures Fitting(launch) && |KernelHits(ws, launch, i)| == Sent(pkts[i], limit)
    ensures forall e :: 1 <= e <= Sent(pkts[i], limit) && 0 !in pkts[i][..e] ==>
              KernelHits(ws, launch, i)[e - 1] == Scan(ws, pkts[i])[e - 1]
    ensures 0 !in pkts[i] ==> KernelHits(ws, launch, i) == Scan(ws, pkts[i])[..Sent(pkts[i], limit)]
  {
    PackedFits(launch, pkts, limit);
    SegmentBytes(launch, pkts, limit, i);
    SentScans(ws, Bytes(launch.packet, launch.begins[i], launch.sizes[i]), pkts[i], Sent(pkts[i], limit));
  }

  lemma SentScans(ws: seq<Word>, bytes: Word, p: Word, n: nat)
    requires |bytes| == n <= |p| && forall k :: 0 <= k < n ==> bytes[k] == if 0 in p[..k + 1] then 0 else p[k]
    ensures forall e :: 1 <= e <= n && 0 !in p[..e] ==> Scan(ws, bytes)[e - 1] == Scan(ws, p)[e - 1]
    ensures 0 !in p ==> Scan(ws, bytes) == Scan(ws, p)[..n]
  {
    forall e: nat | 1 <= e <= n && 0 !in p[..e] ensures Scan(ws, bytes)[e - 1] == Scan(ws, p)[e - 1] {
      SentScan(ws, bytes, p, n, e);
    }
    if 0 !in p { SentWhole(ws, bytes, p, n); }
  }

  lemma PrefixByIndex<T>(a: seq<T>, b: seq<T>)
    requires |a| <= |b| && forall k :: 0 <= k < |a| ==> a[k] == b[k]
    ensures a == b[..|a|]
  {
  }

  lemma SentWhole(ws: seq<Word>, bytes: Word, p: Word, n: nat)
    requires |bytes| == n <= |p| && forall k :: 0 <= k < n ==> bytes[k] == if 0 in p[..k + 1] then 0 else p[k]
    requires 0 !in p
    ensures Scan(ws, bytes) == Scan(ws, p)[..n]
  {
    var a, b := Scan(ws, bytes), Scan(ws, p);
    forall k: nat | k < n ensures a[k] == b[k] { SentScan(ws, bytes, p, n, k + 1); }
    PrefixByIndex(a, b);
  }

  lemma SentScan(ws: seq<Word>, bytes: Word, p: Word, n: nat, e: nat)
    requires |bytes| == n <= |p| && 1 <= e <= n && 0 !in p[..e]
    requires forall k :: 0 <= k < n ==> bytes[k] == if 0 in p[..k + 1] then 0 else p[k]
    ensures Scan(ws, bytes)[e - 1] == Scan(ws, p)[e - 1]
  {
    forall k | 0 <= k < e ensures bytes[k] == p[k] {
      assert forall x :: x in p[..k + 1] ==> x in p[..e];
    }
    assert bytes[..e] == p[..e];
    ScanAt(ws, bytes, e);
    ScanAt(ws, p, e);
  }

  /** Over every run: the launch of each flushed batch reports for its packets what the CPU scan reports
      for the packets received, each in its turn, up to the limit. */
  lemma RunIsScan(limit: nat, pkts: seq<Word>, i: nat, k: nat, launch: Launch, ws: seq<Word>)
    requires i < |Run(limit, pkts).0| && k < |Run(limit, pkts).0[i]| && Carries(launch, Run(limit, pkts).0[i], limit)
    requires forall j :: 0 <= j < |pkts| ==> 0 !in pkts[j]
    ensures var at := |Concat(Run(limit, pkts).0[..i])| + k;
            at < |pkts| && Fitting(launch) && KernelHits(ws, launch, k) == Scan(ws, pkts[at])[..Sent(pkts[at], limit)]
  {
    PacketOfBatch(limit, pkts, i, k);
    LaunchIsScan(launch, Run(limit, pkts).0[i], limit, k, ws);
  }

  /** A packet's segment holds its bytes up to the limit, and NULs from its first NUL on. */
  lemma SegmentBytes(launch: Launch, pkts: seq<Word>, limit: nat, i: nat)
    requires Fitting(launch) && Carries(launch, pkts, limit) && i < |pkts|
    ensures var p, bytes := pkts[i], Bytes(launch.packet, launch.begins[i], launch.sizes[i]);
            && |bytes| == Sent(p, limit)
            && forall k :: 0 <= k < |bytes| ==> bytes[k] == if 0 in p[..k + 1] then 0 else p[k]
  {
    assert Segment(launch.packet, launch.sizes, launch.begins, pkts, limit, i);
    CopiedBytes(pkts[i], Clip(pkts[i], limit), Bytes(launch.packet, launch.begins[i], launch.sizes[i]));
  }

  lemma CopiedBytes(p: Word, c: Word, bytes: Word)
    requires c <= p && bytes == StrNCpy(c, |c|)
    ensures forall k :: 0 <= k < |bytes| ==> bytes[k] == if 0 in p[..k + 1] then 0 else p[k]
  {
    forall k: nat | k < |bytes| ensures bytes[k] == if 0 in p[..k + 1] then 0 else p[k] { CopiedByte(p, c, k); }
  }

  lemma CopiedByte(p: Word, c: Word, k: nat)
    requires c <= p && k < |c|
    ensures StrNCpy(c, |c|)[k] == if 0 in p[..k + 1] then 0 else p[k]
  {
    assert c[..k + 1] == p[..k + 1];
    StrNCpyAt(c, |c|, k);
  }

  lemma PackedFits(launch: Launch, pkts: seq<Word>, limit: nat)
    requires Carries(launch, pkts, limit)
    ensures Fitting(launch)
  {
    forall i: nat | i < |launch.sizes|
      ensures launch.begins[i] + launch.sizes[i] <= |launch.packet|
    {
      assert Segment(launch.packet, launch.sizes, launch.begins, pkts, limit, i);
    }
  }
}
