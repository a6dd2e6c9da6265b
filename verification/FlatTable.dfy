/** The flattened hash table of the GPU matcher: what the five packed arrays stand for. */
module FlatTable {
  import opened Strings
  import opened WuManber

  // ----- the rolling hash -----

  /** The bitwise exclusive or of two naturals. */
  function Xor(a: nat, b: nat): nat
    decreases a + b
  {
    if a == 0 && b == 0 then 0 else (a + b) % 2 + 2 * Xor(a / 2, b / 2)
  }

  /** One turn of the hash loop: the running hash, a character and its position in the block. */
  type Mixer = (nat, Chr, nat) -> nat

  /** The program's turn: multiply by `c ^ i`, add, reduce modulo M. The constant `c` is 128 in the GPU
      matcher and 94 in the CPU one. */
  function ProgramMix(c: nat, M: nat): (mix: Mixer)
    requires M > 0
    ensures Reduces(mix, M)
  {
    (hash: nat, ch: Chr, i: nat) => (hash + ch * Xor(c, i)) % M
  }

  /** Every turn leaves a hash below M. */
  ghost predicate Reduces(mix: Mixer, M: nat) {
    M > 0 && forall h: nat, c: Chr, i: nat :: mix(h, c, i) < M
  }

  lemma {:induction false} XorZero(c: nat)
    ensures Xor(c, 0) == c
  {
    if c == 0 {
    } else {
      XorZero(c / 2);
    }
  }

  /** Bit `k` of `x`. */
  function BitOf(x: nat, k: nat): nat {
    if k == 0 then x % 2 else BitOf(x / 2, k - 1)
  }

  /** A bit of the exclusive or is set exactly when just one of the two is. */
  lemma {:induction false} XorBits(a: nat, b: nat, k: nat)
    ensures BitOf(Xor(a, b), k) == (BitOf(a, k) + BitOf(b, k)) % 2
  {
    XorHalf(a, b);
    if k == 0 {
    } else {
      XorBits(a / 2, b / 2, k - 1);
    }
  }

  lemma XorHalf(a: nat, b: nat)
    ensures Xor(a, b) % 2 == (a % 2 + b % 2) % 2 && Xor(a, b) / 2 == Xor(a / 2, b / 2)
  {
    var low, high := (a + b) % 2, Xor(a / 2, b / 2);
    assert Xor(a, b) == low + 2 * high;
    Halves(Xor(a, b), low, high);
    Parity(a, b);
  }

  lemma Halves(x: nat, low: nat, high: nat)
    requires x == low + 2 * high && low < 2
    ensures x % 2 == low && x / 2 == high
  {
  }

  lemma Parity(a: nat, b: nat)
    ensures (a + b) % 2 == (a % 2 + b % 2) % 2
  {
  }

  function Pow2(k: nat): nat {
    if k == 0 then 1 else 2 * Pow2(k - 1)
  }

  /** Below a power of two the exclusive or is the sum: the program's factor is 128 + i while i < 128. */
  lemma {:induction false} XorAdds(k: nat, i: nat)
    requires i < Pow2(k)
    ensures Xor(Pow2(k), i) == Pow2(k) + i
  {
    if k == 0 {
      assert Xor(1, 0) == 1;
    } else {
      var p := Pow2(k - 1);
      assert Xor(p, i / 2) == p + i / 2 by { XorAdds(k - 1, i / 2); }
      XorDouble(p, i);
    }
  }

  lemma XorDouble(p: nat, i: nat)
    requires p > 0
    ensures Xor(2 * p, i) == i % 2 + 2 * Xor(p, i / 2)
  {
    assert (2 * p) / 2 == p && (2 * p + i) % 2 == i % 2;
  }

  function Weighted(ch: Chr, factor: nat): nat { ch * factor }

  /** The characters of `b` times `c ^ i`, summed. */
  function WeightedSum(b: Word, c: nat): nat {
    if b == [] then 0 else WeightedSum(b[..|b| - 1], c) + Weighted(b[|b| - 1], Xor(c, |b| - 1))
  }

  /** The same sum, reduced at every turn. */
  function ReducedSum(b: Word, c: nat, M: nat): nat
    requires M > 0
  {
    if b == [] then 0 else Reduce(ReducedSum(b[..|b| - 1], c, M) + Weighted(b[|b| - 1], Xor(c, |b| - 1)), M)
  }

  function Reduce(x: nat, M: nat): nat
    requires M > 0
  {
    x % M
  }

  lemma {:induction false} ReducedIsSum(b: Word, c: nat, M: nat)
    requires M > 0
    ensures ReducedSum(b, c, M) == Reduce(WeightedSum(b, c), M)
  {
    if b == [] {
    } else {
      var init, x := b[..|b| - 1], Weighted(b[|b| - 1], Xor(c, |b| - 1));
      ReducedIsSum(init, c, M);
      SumModulo(ReducedSum(init, c, M), WeightedSum(init, c), x, M);
    }
  }

  lemma {:induction false} RollIsReduced(b: Word, c: nat, M: nat)
    requires M > 0
    ensures RollHash(b, ProgramMix(c, M)) == ReducedSum(b, c, M)
  {
    if b == [] {
    } else {
      RollIsReduced(b[..|b| - 1], c, M);
    }
  }

  /** The program's hash of any block is that sum modulo M, reduced once. */
  lemma ProgramHashSum(b: Word, c: nat, M: nat)
    requires M > 0
    ensures RollHash(b, ProgramMix(c, M)) == WeightedSum(b, c) % M
  {
    RollIsReduced(b, c, M);
    ReducedIsSum(b, c, M);
  }

  lemma SumModulo(h: nat, s: nat, x: nat, M: nat)
    requires M > 0 && h == Reduce(s, M)
    ensures Reduce(h + x, M) == Reduce(s + x, M)
  {
    var q := s / M;
    assert s == q * M + h;
    AddMultiple(h + x, q, M);
  }

  lemma {:induction false} AddMultiple(a: nat, k: nat, M: nat)
    requires M > 0
    ensures (a + k * M) % M == a % M
  {
    if k == 0 {
    } else {
      var rest := a + (k - 1) * M;
      assert a + k * M == rest + M;
      AddMultiple(a, k - 1, M);
      AddModulus(rest, M);
    }
  }

  lemma AddModulus(a: nat, M: nat)
    requires M > 0
    ensures (a + M) % M == a % M
  {
    var q, r := a / M, a % M;
    var q', r' := (a + M) / M, (a + M) % M;
    var d := q' - q - 1;
    assert M * q + r + M == M * q' + r';
    assert M * d == r - r' by { Distribute(M, q, q'); }
    MulSign(M, d);
  }

  lemma Distribute(M: nat, q: int, q': int)
    ensures M * (q' - q - 1) == M * q' - M * q - M
  {
  }

  lemma MulSign(M: nat, d: int)
    ensures d >= 1 ==> M * d >= M
    ensures d <= -1 ==> M * d + M <= 0
  {
  }

  /** The program's hash of a single character. */
  lemma ProgramHashOne(c: nat, M: nat, ch: Chr)
    requires M > 0
    ensures RollHash([ch], ProgramMix(c, M)) == (ch * c) % M
  {
    XorZero(c);
    assert [ch][..0] == [];
  }

  /** The hash of a block, accumulated character by character. */
  function RollHash(b: Word, mix: Mixer): nat {
    if b == [] then 0 else mix(RollHash(b[..|b| - 1], mix), b[|b| - 1], |b| - 1)
  }

  lemma RollHashReduced(b: Word, mix: Mixer, M: nat)
    requires Reduces(mix, M)
    ensures RollHash(b, mix) < M
  {
  }

  /** The hash loop, run over `data[start..start + n]`: in the builder over a copied block, in the
      kernel over the text itself. */
  method HashLoop(data: Word, start: nat, n: nat, mix: Mixer) returns (hash: nat)
    requires start + n <= |data|
    ensures hash == RollHash(data[start..start + n], mix)
  {
    hash := 0;
    for i := start to start + n
      invariant hash == RollHash(data[start..i], mix)
    {
      assert data[start..i + 1][..i - start] == data[start..i];
      hash := mix(hash, data[i], i - start);
    }
  }

  // ----- buckets -----

  function Cat(ps: seq<Word>): Word {
    if ps == [] then [] else Cat(ps[..|ps| - 1]) + ps[|ps| - 1]
  }

  function Lens(ps: seq<Word>): (r: seq<nat>)
    ensures |r| == |ps| && forall i :: 0 <= i < |ps| ==> r[i] == |ps[i]|
  {
    seq(|ps|, i requires 0 <= i < |ps| => |ps[i]|)
  }

  lemma CatSnoc(ps: seq<Word>, p: Word)
    ensures Cat(ps + [p]) == Cat(ps) + p && Lens(ps + [p]) == Lens(ps) + [|p|]
  {
    assert (ps + [p])[..|ps|] == ps;
  }

  /** The patterns with a block hashing to `h`, in pattern order. */
  ghost function Listed(ps: seq<Word>, h: nat, pr: Params): seq<Word> {
    if ps == [] then []
    else
      var init := Listed(ps[..|ps| - 1], h, pr);
      if HasHash(ps[|ps| - 1], h, pr) then init + [ps[|ps| - 1]] else init
  }

  lemma ListedSnoc(ps: seq<Word>, j: nat, h: nat, pr: Params)
    requires j < |ps|
    ensures Listed(ps[..j + 1], h, pr) ==
            Listed(ps[..j], h, pr) + if HasHash(ps[j], h, pr) then [ps[j]] else []
  {
    assert ps[..j + 1][..j] == ps[..j];
  }

  lemma {:induction false} ListedMember(ps: seq<Word>, h: nat, pr: Params, p: Word)
    ensures p in Listed(ps, h, pr) <==> p in ps && HasHash(p, h, pr)
  {
    if ps == [] {
    } else {
      var init, last := ps[..|ps| - 1], ps[|ps| - 1];
      ListedMember(init, h, pr, p);
      assert ps == init + [last];
    }
  }

  /** The last place at which `p` occurs in `b`; 0 when it does not. */
  function LastCopy(b: seq<Word>, p: Word): (k: nat)
    ensures b != [] ==> k < |b|
  {
    if b == [] then 0 else if b[|b| - 1] == p then |b| - 1 else LastCopy(b[..|b| - 1], p)
  }

  lemma LastCopySnoc(b: seq<Word>, q: Word, p: Word)
    ensures LastCopy(b + [q], p) == if q == p then |b| else LastCopy(b, p)
  {
    assert (b + [q])[..|b|] == b;
  }

  /** The size index points at the first entry exactly when the first pattern is not repeated. */
  lemma {:induction false} LastCopyZero(b: seq<Word>)
    requires b != []
    ensures LastCopy(b, b[0]) == 0 <==> b[0] !in b[1..]
  {
    var init := b[..|b| - 1];
    if |b| > 1 {
      LastCopyZero(init);
      assert b[1..] == init[1..] + [b[|b| - 1]];
    }
  }

  // ----- the packed arrays -----

  datatype Tables = Tables(data: seq<Chr>, pos: seq<int>, cont: seq<nat>, size: seq<nat>, idx: seq<int>,
                           nData: nat, nSize: nat)

  ghost predicate Shaped(t: Tables, M: nat) {
    |t.pos| == |t.cont| == |t.idx| == M && t.nData <= |t.data| && t.nSize <= |t.size|
  }

  /** One pattern appended to the bucket of `h`; `own` when it equals the pattern being expanded. */
  function Append(t: Tables, h: nat, p: Word, own: bool): Tables
    requires h < |t.pos| == |t.cont| == |t.idx| && t.nData + |p| <= |t.data| && t.nSize < |t.size|
  {
    Tables(t.data[..t.nData] + p + t.data[t.nData + |p|..],
           if t.cont[h] == 0 then t.pos[h := t.nData + 1] else t.pos,
           t.cont[h := t.cont[h] + 1],
           t.size[t.nSize := |p|],
           if own then t.idx[h := t.nSize] else t.idx,
           t.nData + |p|, t.nSize + 1)
  }

  /** The arrays hold the list `b` for hash `h`: characters packed from `d`, lengths from `s`.
      The size index points at the last copy of `first`. */
  ghost predicate Holds(t: Tables, h: nat, b: seq<Word>, first: Word, d: nat, s: nat) {
    && h < |t.pos| == |t.cont| == |t.idx|
    && d + |Cat(b)| <= t.nData <= |t.data| && t.data[d..d + |Cat(b)|] == Cat(b)
    && s + |b| <= t.nSize <= |t.size| && t.size[s..s + |b|] == Lens(b)
    && Counted(t, h, b, first, d, s)
  }

  ghost predicate Counted(t: Tables, h: nat, b: seq<Word>, first: Word, d: nat, s: nat)
    requires h < |t.pos| == |t.cont| == |t.idx|
  {
    && t.cont[h] == |b|
    && (b != [] ==> t.pos[h] == d + 1)
    && (first in b ==> t.idx[h] == s + LastCopy(b, first))
  }

  lemma AppendHolds(t: Tables, h: nat, b: seq<Word>, first: Word, d: nat, s: nat, p: Word)
    requires Holds(t, h, b, first, d, s)
    requires t.nData == d + |Cat(b)| && t.nSize == s + |b|
    requires t.nData + |p| <= |t.data| && t.nSize < |t.size|
    ensures Holds(Append(t, h, p, p == first), h, b + [p], first, d, s)
  {
    AppendChars(t, h, b, d, p, p == first);
    AppendSizes(t, h, b, s, p, p == first);
    AppendCounts(t, h, b, first, d, s, p);
  }

  lemma AppendCounts(t: Tables, h: nat, b: seq<Word>, first: Word, d: nat, s: nat, p: Word)
    requires h < |t.pos| == |t.cont| == |t.idx| && Counted(t, h, b, first, d, s)
    requires t.nData == d + |Cat(b)| && t.nSize == s + |b|
    requires t.nData + |p| <= |t.data| && t.nSize < |t.size|
    ensures Counted(Append(t, h, p, p == first), h, b + [p], first, d, s)
  {
    LastCopySnoc(b, p, first);
  }

  lemma AppendChars(t: Tables, h: nat, b: seq<Word>, d: nat, p: Word, own: bool)
    requires h < |t.pos| == |t.cont| == |t.idx| && t.nData + |p| <= |t.data| && t.nSize < |t.size|
    requires t.nData == d + |Cat(b)| && t.data[d..t.nData] == Cat(b)
    ensures var t' := Append(t, h, p, own);
            t'.nData == d + |Cat(b + [p])| && t'.data[d..d + |Cat(b + [p])|] == Cat(b + [p])
  {
    var t' := Append(t, h, p, own);
    assert t'.data[d..d + |Cat(b) + p|] == Cat(b) + p by { PackedNext(t.data, t.nData, Cat(b), p, d); }
    assert Cat(b + [p]) == Cat(b) + p by { CatSnoc(b, p); }
  }

  lemma AppendSizes(t: Tables, h: nat, b: seq<Word>, s: nat, p: Word, own: bool)
    requires h < |t.pos| == |t.cont| == |t.idx| && t.nData + |p| <= |t.data| && t.nSize < |t.size|
    requires t.nSize == s + |b| && t.size[s..t.nSize] == Lens(b)
    ensures var t' := Append(t, h, p, own);
            t'.nSize == s + |b + [p]| && t'.size[s..s + |b + [p]|] == Lens(b + [p])
  {
    CatSnoc(b, p);
    SizedNext(t.size, t.nSize, |p|, s);
  }

  lemma PackedNext(data: seq<Chr>, n: nat, c: Word, p: Word, d: nat)
    requires d + |c| == n && n + |p| <= |data| && data[d..n] == c
    ensures (data[..n] + p + data[n + |p|..])[d..d + |c + p|] == c + p
  {
    var all := data[..n] + p + data[n + |p|..];
    forall k | 0 <= k < |c + p| ensures all[d + k] == (c + p)[k] {
      if k < |c| { assert data[d..n][k] == data[d + k]; }
    }
  }

  lemma SizedNext(size: seq<nat>, n: nat, x: nat, s: nat)
    requires s <= n < |size|
    ensures size[n := x][s..n + 1] == size[s..n] + [x]
  {
  }

  /** Appending to one bucket leaves every other bucket as it was. */
  lemma AppendFrame(t: Tables, h: nat, p: Word, own: bool, h': nat, b: seq<Word>, first: Word, d: nat, s: nat)
    requires Holds(t, h', b, first, d, s) && h' != h
    requires h < |t.pos| && t.nData + |p| <= |t.data| && t.nSize < |t.size|
    ensures Holds(Append(t, h, p, own), h', b, first, d, s)
  {
    var t' := Append(t, h, p, own);
    assert t'.data[d..d + |Cat(b)|] == t.data[d..d + |Cat(b)|];
    assert t'.size[s..s + |b|] == t.size[s..s + |b|];
  }

  // ----- capacity -----

  /** The hashes of the blocks of `p` that end at or before `k`. */
  ghost function HashesTo(p: Word, k: nat, pr: Params): set<nat>
    requires 1 <= pr.B && k <= |p|
  {
    if k < pr.B then {} else HashesTo(p, k - 1, pr) + {pr.hash(Block(p, k, pr.B))}
  }

  ghost function Hashes(p: Word, pr: Params): set<nat>
    requires 1 <= pr.B
  {
    HashesTo(p, |p|, pr)
  }

  lemma {:induction false} HashesToMember(p: Word, k: nat, pr: Params, h: nat)
    requires 1 <= pr.B && k <= |p|
    ensures h in HashesTo(p, k, pr) <==> exists q: nat :: pr.B <= q <= k && pr.hash(Block(p, q, pr.B)) == h
  {
    if k < pr.B {
    } else {
      HashesToMember(p, k - 1, pr, h);
    }
  }

  lemma {:induction false} HashesToCount(p: Word, k: nat, pr: Params)
    requires 1 <= pr.B && k <= |p|
    ensures |HashesTo(p, k, pr)| <= if k < pr.B then 0 else k - pr.B + 1
  {
    if k < pr.B {
    } else {
      HashesToCount(p, k - 1, pr);
    }
  }

  lemma HashesMember(p: Word, pr: Params, h: nat)
    requires 1 <= pr.B
    ensures h in Hashes(p, pr) <==> HasHash(p, h, pr)
  {
    HashesToMember(p, |p|, pr, h);
  }

  /** `tbHDataSize`. */
  function DataSize(ps: seq<Word>, B: nat): int {
    if ps == [] then 0 else DataSize(ps[..|ps| - 1], B) + |ps[|ps| - 1]| * (|ps[|ps| - 1]| - (B - 1))
  }

  /** Multiplication by repeated addition. */
  ghost function Times(a: nat, n: nat): nat {
    if n == 0 then 0 else Times(a, n - 1) + a
  }

  lemma {:induction false} TimesIsProduct(a: nat, n: nat)
    ensures Times(a, n) == a * n
  {
    if n == 0 {
    } else {
      TimesIsProduct(a, n - 1);
    }
  }

  lemma {:induction false} TimesMonotone(a: nat, n: nat, k: nat)
    requires n <= k
    ensures Times(a, n) <= Times(a, k)
  {
    if n == k {
    } else {
      TimesMonotone(a, n, k - 1);
    }
  }

  /** `tbHDataSize` again, as a bound: each pattern once for each of its blocks. */
  ghost function DataBound(ps: seq<Word>, B: nat): nat {
    if ps == [] then 0
    else
      var p := ps[|ps| - 1];
      DataBound(ps[..|ps| - 1], B) + Times(|p|, if |p| < B then 0 else |p| - B + 1)
  }

  lemma {:induction false} DataBoundIsSize(ps: seq<Word>, B: nat)
    requires forall i :: 0 <= i < |ps| ==> B <= |ps[i]|
    ensures DataBound(ps, B) == DataSize(ps, B)
  {
    if ps == [] {
    } else {
      var p := ps[|ps| - 1];
      DataBoundIsSize(ps[..|ps| - 1], B);
      TimesIsProduct(|p|, |p| - B + 1);
    }
  }

  /** Characters and size entries written when the hashes `done` have been expanded. */
  ghost function DataUsed(ps: seq<Word>, done: set<nat>, pr: Params): nat
    requires 1 <= pr.B
  {
    if ps == [] then 0
    else DataUsed(ps[..|ps| - 1], done, pr) + Times(|ps[|ps| - 1]|, |done * Hashes(ps[|ps| - 1], pr)|)
  }

  ghost function SizesUsed(ps: seq<Word>, done: set<nat>, pr: Params): nat
    requires 1 <= pr.B
  {
    if ps == [] then 0
    else SizesUsed(ps[..|ps| - 1], done, pr) + |done * Hashes(ps[|ps| - 1], pr)|
  }

  /** Expanding one more hash costs the characters and entries of its bucket. */
  lemma {:induction false} UsedByOneMore(ps: seq<Word>, done: set<nat>, h: nat, pr: Params)
    requires 1 <= pr.B && h !in done
    ensures DataUsed(ps, done + {h}, pr) == DataUsed(ps, done, pr) + |Cat(Listed(ps, h, pr))|
    ensures SizesUsed(ps, done + {h}, pr) == SizesUsed(ps, done, pr) + |Listed(ps, h, pr)|
  {
    if ps == [] {
    } else {
      var init, p := ps[..|ps| - 1], ps[|ps| - 1];
      UsedByOneMore(init, done, h, pr);
      HashesMember(p, pr, h);
      var hs := Hashes(p, pr);
      if h in hs {
        assert |(done + {h}) * hs| == |done * hs| + 1 by { assert (done + {h}) * hs == done * hs + {h}; }
        CatSnoc(Listed(init, h, pr), p);
      } else {
        assert |(done + {h}) * hs| == |done * hs| by { assert (done + {h}) * hs == done * hs; }
      }
    }
  }

  /** However the hashes fall, the characters written never exceed `tbHDataSize`. */
  lemma {:induction false} DataFits(ps: seq<Word>, done: set<nat>, pr: Params)
    requires 1 <= pr.B
    ensures DataUsed(ps, done, pr) <= DataBound(ps, pr.B)
  {
    if ps == [] {
    } else {
      var p := ps[|ps| - 1];
      DataFits(ps[..|ps| - 1], done, pr);
      HashesToCount(p, |p|, pr);
      SubsetCount(done * Hashes(p, pr), Hashes(p, pr));
      TimesMonotone(|p|, |done * Hashes(p, pr)|, if |p| < pr.B then 0 else |p| - pr.B + 1);
    }
  }

  /** They reach it exactly when every pattern has been appended once for each of its blocks. */
  lemma {:induction false} DataFull(ps: seq<Word>, done: set<nat>, pr: Params)
    requires 1 <= pr.B && forall p :: p in ps ==> pr.B <= |p|
    ensures DataUsed(ps, done, pr) == DataSize(ps, pr.B) <==>
              forall p :: p in ps ==> |done * Hashes(p, pr)| == |p| - pr.B + 1
  {
    if ps == [] {
    } else {
      var init, p := ps[..|ps| - 1], ps[|ps| - 1];
      var n, k := |done * Hashes(p, pr)|, |p| - pr.B + 1;
      assert ps == init + [p];
      DataFull(init, done, pr);
      assert DataUsed(init, done, pr) <= DataSize(init, pr.B) by { DataFits(init, done, pr); DataBoundIsSize(init, pr.B); }
      assert n <= k by { HashesToCount(p, |p|, pr); SubsetCount(done * Hashes(p, pr), Hashes(p, pr)); }
      var x, y := Times(|p|, n), Times(|p|, k);
      assert x <= y && (x == y <==> n == k) by { FullTimes(|p|, n, k); }
      assert DataSize(ps, pr.B) == DataSize(init, pr.B) + y by { TimesIsProduct(|p|, k); }
      assert DataUsed(ps, done, pr) == DataUsed(init, done, pr) + x;
    }
  }

  lemma FullTimes(a: nat, n: nat, k: nat)
    requires a > 0 && n <= k
    ensures Times(a, n) <= Times(a, k) && (Times(a, n) == Times(a, k) <==> n == k)
  {
    if n < k { TimesMonotone(a, n + 1, k); }
  }

  /** The (non-zero hash, pattern) pairs: the entries the size array needs. */
  ghost function PairCount(ps: seq<Word>, pr: Params): nat
    requires 1 <= pr.B
  {
    if ps == [] then 0 else PairCount(ps[..|ps| - 1], pr) + |Hashes(ps[|ps| - 1], pr) - {0}|
  }

  lemma {:induction false} SizesFit(ps: seq<Word>, done: set<nat>, pr: Params)
    requires 1 <= pr.B && 0 !in done
    ensures SizesUsed(ps, done, pr) <= PairCount(ps, pr)
    ensures (forall p :: p in ps ==> Hashes(p, pr) - {0} <= done) ==> SizesUsed(ps, done, pr) == PairCount(ps, pr)
  {
    if ps == [] {
    } else {
      var p := ps[|ps| - 1];
      SizesFit(ps[..|ps| - 1], done, pr);
      SubsetCount(done * Hashes(p, pr), Hashes(p, pr) - {0});
      if Hashes(p, pr) - {0} <= done {
        assert done * Hashes(p, pr) == Hashes(p, pr) - {0};
      }
    }
  }
}
