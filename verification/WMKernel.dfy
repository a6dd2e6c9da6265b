/** The matcher over the flattened table: the kernel body, and the host loop over every index. */
module WMKernel {
  import opened Strings
  import opened WuManber
  import opened FlatTable
  import opened WMGPUInspectionModule

  /** The table represents the list `b` for hash `h`. */
  ghost predicate Represents(t: Tables, h: nat, b: seq<Word>) {
    && h < |t.cont| && t.cont[h] == |b|
    && (b != [] ==>
         && h < |t.pos| && h < |t.idx|
         && 0 <= t.pos[h] - 1 && t.pos[h] - 1 + |Cat(b)| <= |t.data|
         && t.data[t.pos[h] - 1..t.pos[h] - 1 + |Cat(b)|] == Cat(b)
         && 0 <= t.idx[h] && t.idx[h] + |b| <= |t.size| && t.size[t.idx[h]..t.idx[h] + |b|] == Lens(b))
  }

  /** What bucket `h` should hold: nothing for hash 0, else every pattern with such a block. */
  ghost function BucketOf(ps: seq<Word>, h: nat, pr: Params): seq<Word> {
    if h == 0 then [] else Listed(ps, h, pr)
  }

  /** The sizes of bucket `h`, read from its size index. */
  ghost predicate SizesRead(t: Tables, h: nat, b: seq<Word>) {
    h < |t.idx| && 0 <= t.idx[h] && t.idx[h] + |b| <= |t.size| && t.size[t.idx[h]..t.idx[h] + |b|] == Lens(b)
  }

  /** The size index of an expanded hash points at its first entry exactly when its first pattern is not
      repeated. The table represents a bucket exactly when the sizes read from that index are its own,
      which they are when it points at the first entry. */
  lemma BuiltRepresents(ps: seq<Word>, pr: Params, M: nat, t: Tables, at: Places, h: nat)
    requires Built(ps, pr, M, t, at) && h < M
    requires forall k: nat :: k in at <==> 0 < k < M && Listed(ps, k, pr) != []
    ensures var b := BucketOf(ps, h, pr);
            && (b != [] ==> h in at && h < |t.idx| && (t.idx[h] == at[h].1 <==> b[0] !in b[1..]))
            && (Represents(t, h, b) <==> b == [] || SizesRead(t, h, b))
            && (b != [] && b[0] !in b[1..] ==> SizesRead(t, h, b))
  {
    var b := BucketOf(ps, h, pr);
    if b != [] {
      assert h in at;
      assert Placed(ps, pr, t, at, h);
      LastCopyZero(b);
    }
  }

  /** When its first pattern occurs again, last at place k, a bucket is represented only if every size
      from there on repeats the size k places before. */
  lemma ShiftedSizes(ps: seq<Word>, pr: Params, M: nat, t: Tables, at: Places, h: nat, i: nat)
    requires Built(ps, pr, M, t, at) && h < M
    requires forall k: nat :: k in at <==> 0 < k < M && Listed(ps, k, pr) != []
    requires var b := BucketOf(ps, h, pr); b != [] && Represents(t, h, b) && LastCopy(b, b[0]) + i < |b|
    ensures var b := BucketOf(ps, h, pr); |b[LastCopy(b, b[0]) + i]| == |b[i]|
  {
    var b := BucketOf(ps, h, pr);
    assert h in at;
    assert Placed(ps, pr, t, at, h);
    SizesShifted(t, h, b, at[h].0, at[h].1, i);
  }

  lemma SizesShifted(t: Tables, h: nat, b: seq<Word>, d: nat, s: nat, i: nat)
    requires b != [] && Holds(t, h, b, b[0], d, s) && SizesRead(t, h, b) && LastCopy(b, b[0]) + i < |b|
    ensures |b[LastCopy(b, b[0]) + i]| == |b[i]|
  {
    var k := LastCopy(b, b[0]) + i;
    assert t.size[s + k] == |b[k]| by { assert t.size[s..s + |b|][k] == Lens(b)[k]; }
    assert t.size[t.idx[h] + i] == |b[i]| by { SizesAt(t, h, b, i); }
  }

  /** A pattern listed twice, then a longer one that starts with it: every built table misreads the
      bucket of their first block. The size index points at the second copy, so the longer pattern's
      size is taken for the second copy's. */
  lemma RepeatMisread(p: Word, q: Word, pr: Params, M: nat, t: Tables, at: Places)
    requires 1 <= pr.B <= |p| < |q| && p <= q && 0 < pr.hash(Block(p, pr.B, pr.B)) < M
    requires Built([p, p, q], pr, M, t, at)
    requires forall k: nat :: k in at <==> 0 < k < M && Listed([p, p, q], k, pr) != []
    ensures var h := pr.hash(Block(p, pr.B, pr.B));
            BucketOf([p, p, q], h, pr) == [p, p, q] && !Represents(t, h, [p, p, q])
  {
    var ps, h := [p, p, q], pr.hash(Block(p, pr.B, pr.B));
    AllListed(p, q, h, pr);
    assert Placed(ps, pr, t, at, h);
    SecondCopy(p, q, t, h, at[h].0, at[h].1);
  }

  lemma AllListed(p: Word, q: Word, h: nat, pr: Params)
    requires 1 <= pr.B <= |p| < |q| && p <= q && h == pr.hash(Block(p, pr.B, pr.B))
    ensures Listed([p, p, q], h, pr) == [p, p, q]
  {
    var ps := [p, p, q];
    assert Block(q, pr.B, pr.B) == Block(p, pr.B, pr.B);
    assert HasHash(p, h, pr) && HasHash(q, h, pr);
    ListedSnoc(ps, 0, h, pr);
    ListedSnoc(ps, 1, h, pr);
    ListedSnoc(ps, 2, h, pr);
    assert ps[..0] == [] && ps[..3] == ps;
  }

  lemma SizesAt(t: Tables, h: nat, b: seq<Word>, k: nat)
    requires SizesRead(t, h, b) && k < |b|
    ensures t.size[t.idx[h] + k] == |b[k]|
  {
    assert t.size[t.idx[h]..t.idx[h] + |b|][k] == Lens(b)[k];
  }

  lemma SecondCopy(p: Word, q: Word, t: Tables, h: nat, d: nat, s: nat)
    requires |p| < |q| && Holds(t, h, [p, p, q], p, d, s)
    ensures !SizesRead(t, h, [p, p, q])
  {
    var b := [p, p, q];
    assert LastCopy(b, p) == 1 by { assert b[..2] == [p, p]; }
    assert t.size[s + 2] == t.size[s..s + 3][2] == Lens(b)[2];
    if SizesRead(t, h, b) { SizesAt(t, h, b, 1); }
  }

  /** Every bucket below `M` is as intended. */
  ghost predicate TableOK(ps: seq<Word>, pr: Params, M: nat, tb: Tables) {
    M == 0 || (TableOK(ps, pr, M - 1, tb) && Represents(tb, M - 1, BucketOf(ps, M - 1, pr)))
  }

  lemma {:induction false} TableAt(ps: seq<Word>, pr: Params, M: nat, tb: Tables, h: nat)
    requires TableOK(ps, pr, M, tb) && h < M
    ensures Represents(tb, h, BucketOf(ps, h, pr))
  {
    if h == M - 1 {
    } else {
      TableAt(ps, pr, M - 1, tb, h);
    }
  }

  lemma {:induction false} TableOf(ps: seq<Word>, pr: Params, M: nat, tb: Tables)
    requires forall h: nat :: h < M ==> Represents(tb, h, BucketOf(ps, h, pr))
    ensures TableOK(ps, pr, M, tb)
  {
    if M == 0 {
    } else {
      TableOf(ps, pr, M - 1, tb);
    }
  }

  /** In a list of distinct patterns every bucket starts with an unrepeated one. */
  lemma {:induction false} DistinctListed(ps: seq<Word>, h: nat, pr: Params)
    requires NoDup(ps)
    ensures NoDup(Listed(ps, h, pr))
  {
    if ps == [] {
    } else {
      var init, last := ps[..|ps| - 1], ps[|ps| - 1];
      DistinctListed(init, h, pr);
      ListedMember(init, h, pr, last);
    }
  }

  lemma NoDupHead(b: seq<Word>)
    requires NoDup(b) && b != []
    ensures b[0] !in b[1..]
  {
    var rest := b[1..];
    forall k | 0 <= k < |rest| ensures rest[k] != b[0] {
      assert rest[k] == b[k + 1];
    }
  }

  /** For distinct patterns the whole table is as intended. */
  lemma DistinctRepresents(ps: seq<Word>, pr: Params, M: nat, t: Tables, at: Places)
    requires Built(ps, pr, M, t, at) && NoDup(ps)
    requires forall k: nat :: k in at <==> 0 < k < M && Listed(ps, k, pr) != []
    ensures TableOK(ps, pr, M, t)
  {
    forall h: nat | h < M ensures Represents(t, h, BucketOf(ps, h, pr)) {
      BuiltRepresents(ps, pr, M, t, at, h);
      DistinctListed(ps, h, pr);
      if Listed(ps, h, pr) != [] { NoDupHead(Listed(ps, h, pr)); }
    }
    TableOf(ps, pr, M, t);
  }

  /** The byte at offset `i` of the text; offsets below 0 fall into the memory before the buffer. */
  function ByteAt(before: Word, data: Word, i: int): Chr
    requires -|before| <= i < |data|
  {
    (before + data)[|before| + i]
  }

  /** The last `Cat`-offset of entry `t`. */
  lemma {:induction false} CatAt(b: seq<Word>, t: nat)
    requires t < |b|
    ensures |Cat(b[..t])| + |b[t]| == |Cat(b[..t + 1])| <= |Cat(b)|
    ensures forall k :: 0 <= k < |b[t]| ==> Cat(b)[|Cat(b[..t])| + k] == b[t][k]
  {
    assert b[..t + 1][..t] == b[..t];
    if t + 1 == |b| {
      assert b[..t + 1] == b;
    } else {
      var init := b[..|b| - 1];
      CatAt(init, t);
      assert init[..t] == b[..t] && init[..t + 1] == b[..t + 1];
    }
  }

  /** The text up to `end`, with the memory before it. */
  function Memory(before: Word, data: Word, end: nat): Word
    requires end <= |data|
  {
    before + data[..end]
  }

  /** Where entry `t` of a bucket lies in the packed arrays. */
  lemma EntryLayout(tb: Tables, h: nat, b: seq<Word>, t: nat)
    requires Represents(tb, h, b) && t < |b|
    ensures tb.size[tb.idx[h] + t] == |b[t]|
    ensures |Cat(b[..t])| + |b[t]| == |Cat(b[..t + 1])| && tb.pos[h] - 1 + |Cat(b[..t + 1])| <= |tb.data|
    ensures Packed(tb.data, tb.pos[h] - 1 + |Cat(b[..t])|, b[t])
  {
    CatAt(b, t);
    assert tb.size[tb.idx[h]..tb.idx[h] + |b|][t] == Lens(b)[t];
    var start := tb.pos[h] - 1;
    var all := tb.data[start..start + |Cat(b)|];
    forall k | 0 <= k < |b[t]| ensures tb.data[start + |Cat(b[..t])| + k] == b[t][k] {
      assert all[|Cat(b[..t])| + k] == tb.data[start + |Cat(b[..t])| + k];
    }
  }

  /** `p` is stored from offset `d`. */
  ghost predicate Packed(chars: seq<Chr>, d: nat, p: Word) {
    d + |p| <= |chars| && forall k :: 0 <= k < |p| ==> chars[d + k] == p[k]
  }

  /** The comparison loop for one entry: backwards through the packed characters and the text.
      `posIniPadrao` is the start of the bucket, `tamArrPadrao` the characters up to the entry's end. */
  method CompareEntry(tbHData: seq<Chr>, posIniPadrao: nat, tamArrPadrao: nat, tamPadrao: nat, ghost p: Word,
                      ghost start: nat, before: Word, data: Word, end: nat)
    returns (matched: bool, posicao: int)
    requires tamPadrao == |p| <= tamArrPadrao && start == posIniPadrao + tamArrPadrao - tamPadrao && Packed(tbHData, start, p)
    requires end <= |data| && tamPadrao <= |before| + end
    ensures matched <==> IsSuffix(p, Memory(before, data, end))
    ensures matched ==> posicao == end - |p|
  {
    var final, final2 := end - 1, tamPadrao;
    ghost var mem := Memory(before, data, end);
    SuffixByIndex(p, mem);
    matched := true;
    var ch := tamArrPadrao;
    while ch >= 0
      invariant -1 <= ch && 0 <= final2 <= tamPadrao
      invariant ch == tamArrPadrao - (tamPadrao - final2) && final == end - 1 - (tamPadrao - final2)
      invariant matched && forall k :: final2 <= k < |p| ==> p[k] == mem[|mem| - |p| + k]
      decreases ch
    {
      if final2 - 1 >= 0 {
        assert tbHData[start + (final2 - 1)] == p[final2 - 1];
        assert ByteAt(before, data, final) == mem[|before| + final];
        if tbHData[posIniPadrao + ch - 1] == ByteAt(before, data, final) {
          final := final - 1;
          final2 := final2 - 1;
        } else {
          matched := false;
          break;
        }
      } else {
        break;
      }
      ch := ch - 1;
    }
    posicao := final + 1;
  }

  /** The offset stored by the last entry that matches; 0 when none does. */
  function Stored(b: seq<Word>, flags: seq<bool>, end: nat): int
    requires |flags| <= |b|
  {
    if flags == [] then 0
    else if flags[|flags| - 1] then end - |b[|flags| - 1]|
    else Stored(b, flags[..|flags| - 1], end)
  }

  /** The stored offset is where the match of the last flagged entry starts. */
  lemma StoredMeaning(b: seq<Word>, flags: seq<bool>, end: nat)
    requires |flags| <= |b|
    ensures (forall t :: 0 <= t < |flags| ==> !flags[t]) ==> Stored(b, flags, end) == 0
    ensures forall t :: 0 <= t < |flags| && flags[t] && (forall u :: t < u < |flags| ==> !flags[u])
                        ==> Stored(b, flags, end) == end - |b[t]|
  {
    if forall t :: 0 <= t < |flags| ==> !flags[t] { StoredNone(b, flags, end); }
    forall t | 0 <= t < |flags| && flags[t] && (forall u :: t < u < |flags| ==> !flags[u])
      ensures Stored(b, flags, end) == end - |b[t]|
    {
      StoredLast(b, flags, end, t);
    }
  }

  lemma {:induction false} StoredNone(b: seq<Word>, flags: seq<bool>, end: nat)
    requires |flags| <= |b| && forall t :: 0 <= t < |flags| ==> !flags[t]
    ensures Stored(b, flags, end) == 0
  {
    if flags != [] { StoredNone(b, flags[..|flags| - 1], end); }
  }

  lemma {:induction false} StoredLast(b: seq<Word>, flags: seq<bool>, end: nat, t: nat)
    requires t < |flags| <= |b| && flags[t] && forall u :: t < u < |flags| ==> !flags[u]
    ensures Stored(b, flags, end) == end - |b[t]|
  {
    if t < |flags| - 1 { StoredLast(b, flags[..|flags| - 1], end, t); }
  }

  /** Entry by entry, what the bucket loop should find at `end`. */
  ghost predicate FlagsAre(flags: seq<bool>, b: seq<Word>, mem: Word) {
    |flags| <= |b| && forall t :: 0 <= t < |flags| ==> (flags[t] <==> IsSuffix(b[t], mem))
  }

  /** One turn of the bucket loop: the size of entry `t`, then the comparison. */
  method CheckEntry(tb: Tables, hash: nat, t: nat, tamAcc: nat, ghost b: seq<Word>, before: Word, data: Word, end: nat)
    returns (matched: bool, posicao: int, tamArrPadrao: nat)
    requires Represents(tb, hash, b) && t < |b| && tamAcc == |Cat(b[..t])|
    requires end <= |data| && |b[t]| <= |before|
    ensures matched <==> IsSuffix(b[t], Memory(before, data, end))
    ensures matched ==> posicao == end - |b[t]|
    ensures tamArrPadrao == |Cat(b[..t + 1])|
  {
    EntryLayout(tb, hash, b, t);
    var tamPadrao := tb.size[tb.idx[hash] + t];
    tamArrPadrao := tamAcc + tamPadrao;
    matched, posicao := CompareEntry(tb.data, tb.pos[hash] - 1, tamArrPadrao, tamPadrao, b[t],
                                     tb.pos[hash] - 1 + tamAcc, before, data, end);
  }

  /** The bucket loop. `flags[t]` says whether entry t of the bucket matched. */
  method CheckBucket(tb: Tables, hash: nat, ghost b: seq<Word>, before: Word, data: Word, end: nat)
    returns (flags: seq<bool>, posicao: int)
    requires Represents(tb, hash, b) && end <= |data| && forall p :: p in b ==> |p| <= |before|
    ensures |flags| == |b| && FlagsAre(flags, b, Memory(before, data, end))
    ensures posicao == Stored(b, flags, end)
  {
    flags, posicao := [], 0;
    var tamArrPadrao: nat := 0;
    ghost var mem := Memory(before, data, end);
    for t := 0 to tb.cont[hash]
      invariant |flags| == t && tamArrPadrao == |Cat(b[..t])|
      invariant FlagsAre(flags, b, mem)
      invariant posicao == Stored(b, flags, end)
    {
      assert |b[t]| <= |before| by { assert b[t] in b; }
      var matched, at;
      matched, at, tamArrPadrao := CheckEntry(tb, hash, t, tamArrPadrao, b, before, data, end);
      if matched {
        posicao := at;
      }
      FlagsSnoc(flags, b, mem, matched, end);
      flags := flags + [matched];
    }
  }

  lemma FlagsSnoc(flags: seq<bool>, b: seq<Word>, mem: Word, matched: bool, end: nat)
    requires FlagsAre(flags, b, mem) && |flags| < |b| && (matched <==> IsSuffix(b[|flags|], mem))
    ensures FlagsAre(flags + [matched], b, mem)
    ensures Stored(b, flags + [matched], end) == if matched then end - |b[|flags|]| else Stored(b, flags, end)
  {
    assert (flags + [matched])[..|flags|] == flags;
  }

  /** Every entry of the bucket has its flag. */
  ghost predicate AllFlagged(b: seq<Word>, mem: Word, flags: seq<bool>) {
    |flags| == |b| && FlagsAre(flags, b, mem)
  }

  /** What the kernel computes at one index: the flags of the bucket of the block's hash. */
  ghost predicate Checked(ps: seq<Word>, pr: Params, before: Word, data: Word, end: nat, flags: seq<bool>)
    requires pr.B <= end <= |data|
  {
    AllFlagged(BucketOf(ps, pr.hash(Block(data, end, pr.B)), pr), Memory(before, data, end), flags)
  }

  /** The kernel's hash loop: the hash the builder gave the block that ends at `index + B`. */
  method KernelHash(index: nat, data: Word, B: nat, M: nat, mix: Mixer, ghost pr: Params) returns (hash: nat)
    requires Reduces(mix, M) && index + B <= |data| && pr == FlatParams(B, mix)
    ensures hash < M && hash == pr.hash(Block(data, index + B, pr.B))
  {
    hash := HashLoop(data, index, B, mix);
    RollHashReduced(data[index..index + B], mix, M);
    assert Block(data, index + B, B) == data[index..index + B];
  }

  /** The kernel body at one index. */
  method Kernel(index: nat, tb: Tables, before: Word, data: Word, B: nat, M: nat, mix: Mixer,
                ghost ps: seq<Word>, ghost pr: Params)
    returns (flags: seq<bool>, posicao: int)
    requires Reduces(mix, M) && index + B <= |data|
    requires pr == FlatParams(B, mix) && TableOK(ps, pr, M, tb)
    requires forall p :: p in ps ==> |p| <= |before|
    ensures Checked(ps, pr, before, data, index + B, flags)
    ensures posicao == Stored(BucketOf(ps, pr.hash(Block(data, index + B, pr.B)), pr), flags, index + B)
  {
    var hash := KernelHash(index, data, B, M, mix, pr);
    flags, posicao := CheckHash(tb, hash, M, before, data, index + B, ps, pr);
  }

  /** The bucket loop for the hash of the block that ends at `end`. */
  method CheckHash(tb: Tables, hash: nat, ghost M: nat, before: Word, data: Word, end: nat,
                   ghost ps: seq<Word>, ghost pr: Params)
    returns (flags: seq<bool>, posicao: int)
    requires hash < M && TableOK(ps, pr, M, tb) && pr.B <= end <= |data| && hash == pr.hash(Block(data, end, pr.B))
    requires forall p :: p in ps ==> |p| <= |before|
    ensures Checked(ps, pr, before, data, end, flags)
    ensures posicao == Stored(BucketOf(ps, pr.hash(Block(data, end, pr.B)), pr), flags, end)
  {
    TableAt(ps, pr, M, tb, hash);
    ShortBucket(ps, hash, pr, |before|);
    flags, posicao := CheckBucket(tb, hash, BucketOf(ps, hash, pr), before, data, end);
  }

  lemma ShortBucket(ps: seq<Word>, h: nat, pr: Params, bound: nat)
    requires forall p :: p in ps ==> |p| <= bound
    ensures forall p :: p in BucketOf(ps, h, pr) ==> |p| <= bound
  {
    forall p | p in BucketOf(ps, h, pr) ensures |p| <= bound {
      ListedMember(ps, h, pr, p);
    }
  }

  /** A pattern that lies inside the text up to `end` is compared with text only. */
  lemma InsideText(p: Word, before: Word, data: Word, end: nat)
    requires |p| <= end <= |data|
    ensures IsSuffix(p, Memory(before, data, end)) <==> IsSuffix(p, data[..end])
  {
    var mem := Memory(before, data, end);
    assert mem[|mem| - |p|..] == data[..end][end - |p|..];
  }

  /** Some flagged entry of bucket `h` is the pattern `p`. */
  ghost predicate Flagged(ps: seq<Word>, pr: Params, h: nat, flags: seq<bool>, p: Word) {
    var b := BucketOf(ps, h, pr);
    |flags| == |b| && exists t :: 0 <= t < |b| && b[t] == p && flags[t]
  }

  /** A pattern is flagged for the block ending at `end` exactly when the memory up to there ends with it
      and the block does not hash to 0. */
  lemma KernelFinds(ps: seq<Word>, pr: Params, flags: seq<bool>, before: Word, data: Word, end: nat, p: Word)
    requires 1 <= pr.B <= |p| && pr.B <= end <= |data| && p in ps
    requires Checked(ps, pr, before, data, end, flags)
    ensures var h := pr.hash(Block(data, end, pr.B));
            Flagged(ps, pr, h, flags, p) <==> h != 0 && IsSuffix(p, Memory(before, data, end))
  {
    var h := pr.hash(Block(data, end, pr.B));
    var b, mem := BucketOf(ps, h, pr), Memory(before, data, end);
    if h != 0 && IsSuffix(p, mem) {
      LastBlockIs(p, before, data, end, pr.B);
      ListedMember(ps, h, pr, p);
      var t :| 0 <= t < |b| && b[t] == p;
      assert flags[t];
    }
  }

  lemma LastBlockIs(p: Word, before: Word, data: Word, end: nat, B: nat)
    requires B <= |p| && B <= end <= |data| && IsSuffix(p, Memory(before, data, end))
    ensures Block(p, |p|, B) == Block(data, end, B)
  {
    var mem := Memory(before, data, end);
    assert mem[|mem| - B..] == mem[|mem| - |p|..][|p| - B..];
    assert mem[|mem| - B..] == data[end - B..end];
  }

  lemma SuffixOfBoth(a: Word, t: Word, x: Word, y: Word)
    requires |y| == |t|
    ensures IsSuffix(x + y, a + t) <==> y == t && IsSuffix(x, a)
  {
    if |x| <= |a| {
      var tail := (a + t)[|a| - |x|..];
      assert tail == a[|a| - |x|..] + t;
      assert tail[..|x|] == a[|a| - |x|..] && tail[|x|..] == t;
      assert (x + y)[..|x|] == x && (x + y)[|x|..] == y;
    }
  }

  /** The memory up to `end` ends with `p`: within the text, or, for a pattern longer than the text
      read, when that text ends it and the memory before the text ends with the rest. */
  lemma MemoryMatch(p: Word, before: Word, data: Word, end: nat)
    requires end <= |data|
    ensures IsSuffix(p, Memory(before, data, end)) <==>
              if |p| <= end then IsSuffix(p, data[..end]) else Straddles(p, before, data, end)
  {
    var mem, n := Memory(before, data, end), |p| - end;
    if |p| <= end {
      InsideText(p, before, data, end);
    } else if |p| <= |mem| {
      assert p == p[..n] + p[n..];
      SuffixOfBoth(before, data[..end], p[..n], p[n..]);
    }
  }

  ghost predicate Straddles(p: Word, before: Word, data: Word, end: nat)
    requires end <= |data|
  {
    |p| > end && IsSuffix(data[..end], p) && IsSuffix(p[..|p| - end], before)
  }

  /** Against the text alone: an occurrence is missed exactly when its last block hashes to 0, and a
      pattern is reported where it does not end exactly when it straddles the start of the text. */
  lemma KernelErrs(ps: seq<Word>, pr: Params, flags: seq<bool>, before: Word, data: Word, end: nat, p: Word)
    requires 1 <= pr.B <= |p| && pr.B <= end <= |data| && p in ps
    requires Checked(ps, pr, before, data, end, flags)
    ensures var h := pr.hash(Block(data, end, pr.B));
            && (!Flagged(ps, pr, h, flags, p) && IsSuffix(p, data[..end]) <==> h == 0 && IsSuffix(p, data[..end]))
            && (Flagged(ps, pr, h, flags, p) && !IsSuffix(p, data[..end]) <==> h != 0 && Straddles(p, before, data, end))
  {
    KernelFinds(ps, pr, flags, before, data, end, p);
    MemoryMatch(p, before, data, end);
  }

  /** The program's parameters for one pattern of six characters: blocks of one character, M = 6. */
  function SixParams(): Params {
    FlatParams(1, ProgramMix(128, 6))
  }

  /** Their hashes. */
  ghost predicate SixHashes(pr: Params) {
    pr.B == 1 && forall ch: Chr :: pr.hash([ch]) == (ch * 128) % 6
  }

  lemma SixHash(pr: Params)
    requires pr == SixParams()
    ensures SixHashes(pr)
  {
    forall ch: Chr ensures pr.hash([ch]) == (ch * 128) % 6 { ProgramHashOne(128, 6, ch); }
  }

  /** A word over 'a' and 'b' that holds both has the hashes 2 and 4. */
  predicate BothLetters(p: Word) {
    (forall k :: 0 <= k < |p| ==> p[k] == 97 || p[k] == 98) && 97 in p && 98 in p
  }

  lemma LetterHashes(pr: Params, p: Word, h: nat)
    requires pr.B == 1 && pr.hash([97]) == 2 && pr.hash([98]) == 4 && forall k :: 0 <= k < |p| ==> p[k] == 97 || p[k] == 98
    ensures h in Hashes(p, pr) <==> (h == 2 && 97 in p) || (h == 4 && 98 in p)
  {
    HashesMember(p, pr, h);
    if HasHash(p, h, pr) {
      var c := LetterOf(pr, p, h);
      assert c == 97 || c == 98;
    }
    if 97 in p { LetterHash(pr, p, 97); }
    if 98 in p { LetterHash(pr, p, 98); }
  }

  lemma LetterOf(pr: Params, p: Word, h: nat) returns (c: Chr)
    requires pr.B == 1 && HasHash(p, h, pr)
    ensures c in p && pr.hash([c]) == h
  {
    var q: nat :| 1 <= q <= |p| && pr.hash(Block(p, q, 1)) == h;
    c := p[q - 1];
    assert Block(p, q, 1) == [c];
  }

  lemma LetterHash(pr: Params, p: Word, c: Chr)
    requires pr.B == 1 && c in p
    ensures HasHash(p, pr.hash([c]), pr)
  {
    var k :| 0 <= k < |p| && p[k] == c;
    var q: nat := k + 1;
    assert Block(p, q, 1) == [c];
  }

  lemma {:induction false} PairsOfBoth(pr: Params, ps: seq<Word>)
    requires pr.B == 1 && pr.hash([97]) == 2 && pr.hash([98]) == 4
    requires ps != [] && ps[0] == [97] && forall i :: 1 <= i < |ps| ==> BothLetters(ps[i])
    ensures PairCount(ps, pr) == 2 * |ps| - 1
  {
    var init, p := ps[..|ps| - 1], ps[|ps| - 1];
    if |ps| == 1 {
      assert Hashes(p, pr) - {0} == {2} by {
        forall h: nat ensures h in Hashes(p, pr) <==> h == 2 { LetterHashes(pr, p, h); }
      }
    } else {
      PairsOfBoth(pr, init);
      BothHashes(pr, p);
    }
  }

  lemma BothHashes(pr: Params, p: Word)
    requires pr.B == 1 && pr.hash([97]) == 2 && pr.hash([98]) == 4 && BothLetters(p)
    ensures |Hashes(p, pr) - {0}| == 2
  {
    forall h: nat ensures h in Hashes(p, pr) <==> h == 2 || h == 4 { LetterHashes(pr, p, h); }
    assert Hashes(p, pr) - {0} == {2, 4};
  }

  lemma SixPairs(pr: Params, ps: seq<Word>)
    requires SixHashes(pr) && |ps| == 6 && ps[0] == [97] && forall i :: 1 <= i < 6 ==> BothLetters(ps[i])
    ensures PairCount(ps, pr) == 11
  {
    assert pr.hash([97]) == 2 && pr.hash([98]) == 4;
    PairsOfBoth(pr, ps);
  }

  /** The rules "a" and five words over 'a' and 'b' that hold both: m = 1 and M = 6, but eleven size
      entries are written. */
  lemma SizeRowsOverrun(pr: Params, ps: seq<Word>)
    requires pr == SixParams() && |ps| == 6 && ps[0] == [97] && forall i :: 1 <= i < 6 ==> BothLetters(ps[i])
    ensures PairCount(ps, pr) == 11
  {
    SixHash(pr);
    SixPairs(pr, ps);
  }

  /** Patterns of one length m never write more than the M = m * nP entries. */
  lemma {:induction false} EqualLengthsFit(pr: Params, ps: seq<Word>, m: nat)
    requires 1 <= pr.B && forall i :: 0 <= i < |ps| ==> |ps[i]| == m
    ensures PairCount(ps, pr) <= m * |ps|
  {
    if ps == [] {
    } else {
      var p := ps[|ps| - 1];
      EqualLengthsFit(pr, ps[..|ps| - 1], m);
      HashesToCount(p, |p|, pr);
      SubsetCount(Hashes(p, pr) - {0}, Hashes(p, pr));
      assert m * |ps| == m * (|ps| - 1) + m;
    }
  }

  /** "ababac" is missed in the text "ababac": its last block 'c' hashes to 0. */
  lemma MissedBlock(pr: Params, flags: seq<bool>, before: Word, data: Word, end: nat)
    requires pr == SixParams() && data == [97, 98, 97, 98, 97, 99] && end == 6 && Checked([data], pr, before, data, end, flags)
    ensures IsSuffix(data, data[..end]) && !Flagged([data], pr, pr.hash(Block(data, end, pr.B)), flags, data)
  {
    SixHash(pr);
    MissedWhole(pr, flags, before, data, end);
  }

  lemma MissedWhole(pr: Params, flags: seq<bool>, before: Word, data: Word, n: nat)
    requires SixHashes(pr) && 1 <= n == |data| && data[n - 1] == 99 && Checked([data], pr, before, data, n, flags)
    ensures IsSuffix(data, data[..n]) && !Flagged([data], pr, pr.hash(Block(data, n, pr.B)), flags, data)
  {
    assert Block(data, n, 1) == [data[n - 1]] && data[..n] == data;
    KernelErrs([data], pr, flags, before, data, n, data);
  }

  /** The program's parameters for a hundred patterns of eight characters: blocks of two, M = 800. */
  function HundredParams(): Params {
    FlatParams(2, ProgramMix(128, 800))
  }

  lemma PairHash(pr: Params, x: Chr, y: Chr)
    requires pr == HundredParams()
    ensures pr.B == 2 && pr.hash([x, y]) == (128 * x + 129 * y) % 800
  {
    ProgramHashSum([x, y], 128, 800);
    PairSum(x, y);
  }

  /** The characters of a block of two count 128 and 129 times. */
  lemma PairSum(x: Chr, y: Chr)
    ensures WeightedSum([x, y], 128) == 128 * x + 129 * y
  {
    var b: Word := [x, y];
    assert Xor(128, 0) == 128 && Xor(128, 1) == 129 by {
      assert Pow2(7) == 128;
      XorAdds(7, 0);
      XorAdds(7, 1);
    }
    assert b[..1] == [x];
    assert WeightedSum([x], 128) == x * 128 by { assert [x][..0] == []; }
  }

  /** With blocks of two, a pattern that ends in "c " is missed in its own text. */
  lemma MissedPair(ps: seq<Word>, pr: Params, flags: seq<bool>, before: Word, data: Word)
    requires pr == HundredParams() && data in ps && |data| == 8 && data[6..] == [99, 32]
    requires Checked(ps, pr, before, data, 8, flags)
    ensures IsSuffix(data, data[..8]) && !Flagged(ps, pr, pr.hash(Block(data, 8, pr.B)), flags, data)
  {
    assert pr.B == 2 && pr.hash(data[6..]) == 0 by { PairHash(pr, 99, 32); }
    MissedEnd(ps, pr, flags, before, data);
  }

  lemma MissedEnd(ps: seq<Word>, pr: Params, flags: seq<bool>, before: Word, data: Word)
    requires pr.B == 2 && data in ps && |data| == 8 && pr.hash(data[6..]) == 0
    requires Checked(ps, pr, before, data, 8, flags)
    ensures IsSuffix(data, data[..8]) && !Flagged(ps, pr, pr.hash(Block(data, 8, pr.B)), flags, data)
  {
    assert Block(data, 8, 2) == data[6..] && data[..8] == data;
    KernelErrs(ps, pr, flags, before, data, 8, data);
  }

  /** "ababab" is reported in the text "b" when the memory before the text ends with "ababa". */
  lemma FalseHit(pr: Params, flags: seq<bool>, p: Word, before: Word, data: Word, end: nat)
    requires pr == SixParams() && p == [97, 98, 97, 98, 97, 98] && data == [98] && end == 1
    requires IsSuffix(p[..5], before) && Checked([p], pr, before, data, end, flags)
    ensures Flagged([p], pr, pr.hash(Block(data, end, pr.B)), flags, p) && !IsSuffix(p, data[..end])
  {
    SixHash(pr);
    FalseHitOne(pr, flags, p, before, data, end);
  }

  lemma FalseHitOne(pr: Params, flags: seq<bool>, p: Word, before: Word, data: Word, end: nat)
    requires SixHashes(pr) && data == [98] && end == 1 && |p| == 6 && p[5..] == data
    requires IsSuffix(p[..5], before) && Checked([p], pr, before, data, end, flags)
    ensures Flagged([p], pr, pr.hash(Block(data, end, pr.B)), flags, p) && !IsSuffix(p, data[..end])
  {
    assert Block(data, end, 1) == data && data[..end] == data;
    KernelErrs([p], pr, flags, before, data, end, p);
  }

  /** The result at index `pos`: for every pattern, whether the memory up to the end of the block ends
      with it, unless the block hashes to 0; and the offset stored by the last entry found. */
  ghost predicate FoundAt(ps: seq<Word>, pr: Params, before: Word, data: Word, flags: seq<bool>, posicao: int, pos: nat)
    requires pos + pr.B <= |data|
  {
    var end := pos + pr.B;
    var h := pr.hash(Block(data, end, pr.B));
    && |flags| == |BucketOf(ps, h, pr)| && posicao == Stored(BucketOf(ps, h, pr), flags, end)
    && forall p :: p in ps && pr.B <= |p| ==>
         (Flagged(ps, pr, h, flags, p) <==> h != 0 && IsSuffix(p, Memory(before, data, end)))
  }

  /** One index of the host loop. */
  method FoundAtIndex(pos: nat, tb: Tables, before: Word, data: Word, B: nat, M: nat, mix: Mixer,
                      ghost ps: seq<Word>, ghost pr: Params)
    returns (flags: seq<bool>, posicao: int)
    requires Reduces(mix, M) && 1 <= B && pos + B <= |data|
    requires pr == FlatParams(B, mix) && TableOK(ps, pr, M, tb)
    requires forall p :: p in ps ==> |p| <= |before|
    ensures FoundAt(ps, pr, before, data, flags, posicao, pos)
  {
    flags, posicao := Kernel(pos, tb, before, data, B, M, mix, ps, pr);
    CheckedFound(ps, pr, before, data, flags, posicao, pos, pos + B);
  }

  lemma CheckedFound(ps: seq<Word>, pr: Params, before: Word, data: Word, flags: seq<bool>, posicao: int, pos: nat, end: nat)
    requires 1 <= pr.B && end == pos + pr.B <= |data| && Checked(ps, pr, before, data, end, flags)
    requires posicao == Stored(BucketOf(ps, pr.hash(Block(data, end, pr.B)), pr), flags, end)
    ensures FoundAt(ps, pr, before, data, flags, posicao, pos)
  {
    forall p | p in ps && pr.B <= |p|
      ensures Flagged(ps, pr, pr.hash(Block(data, end, pr.B)), flags, p) <==>
              pr.hash(Block(data, end, pr.B)) != 0 && IsSuffix(p, Memory(before, data, end))
    {
      KernelFinds(ps, pr, flags, before, data, end, p);
    }
  }

  ghost predicate AllFoundAt(ps: seq<Word>, pr: Params, before: Word, data: Word, results: seq<seq<bool>>, offsets: seq<int>)
    requires |results| == |offsets| && |results| + pr.B <= |data| + 1
  {
    forall pos: nat :: pos < |results| ==> FoundAt(ps, pr, before, data, results[pos], offsets[pos], pos)
  }

  lemma FoundSnoc(ps: seq<Word>, pr: Params, before: Word, data: Word, results: seq<seq<bool>>, offsets: seq<int>,
                  flags: seq<bool>, posicao: int)
    requires |results| == |offsets| && |results| + pr.B <= |data|
    requires AllFoundAt(ps, pr, before, data, results, offsets)
    requires FoundAt(ps, pr, before, data, flags, posicao, |results|)
    ensures AllFoundAt(ps, pr, before, data, results + [flags], offsets + [posicao])
  {
    var rs, os := results + [flags], offsets + [posicao];
    forall pos: nat | pos < |rs| ensures FoundAt(ps, pr, before, data, rs[pos], os[pos], pos) {
      if pos < |results| {
        assert FoundAt(ps, pr, before, data, results[pos], offsets[pos], pos);
      }
    }
  }

  /** The host loop of `exec`: the same body at every index, in order. */
  method ScanFlat(tb: Tables, before: Word, data: Word, B: nat, M: nat, mix: Mixer, ghost ps: seq<Word>, ghost pr: Params)
    returns (results: seq<seq<bool>>, offsets: seq<int>)
    requires Reduces(mix, M) && 1 <= B
    requires pr == FlatParams(B, mix) && TableOK(ps, pr, M, tb)
    requires forall p :: p in ps ==> |p| <= |before|
    ensures |results| == |offsets| == if |data| < B then 0 else |data| - B + 1
    ensures |data| >= B ==> AllFoundAt(ps, pr, before, data, results, offsets)
  {
    results, offsets := [], [];
    var pos: nat := 0;
    while pos <= |data| - B
      invariant pos == |results| == |offsets| && (pos == 0 || pos <= |data| - B + 1)
      invariant |data| >= B ==> AllFoundAt(ps, pr, before, data, results, offsets)
    {
      var flags, posicao := FoundAtIndex(pos, tb, before, data, B, M, mix, ps, pr);
      FoundSnoc(ps, pr, before, data, results, offsets, flags, posicao);
      results := results + [flags];
      offsets := offsets + [posicao];
      pos := pos + 1;
    }
  }
}
