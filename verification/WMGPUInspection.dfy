/** The builder of the flattened table and the kernel that matches against it. */
module WMGPUInspectionModule {
  import opened Strings
  import opened WuManber
  import opened FlatTable

  /** Blocks of size B under the rolling hash. */
  function FlatParams(B: nat, mix: Mixer): Params {
    Params(B, B, w => RollHash(w, mix))
  }

  /** Where the bucket of each expanded hash starts in the character and size arrays. */
  type Places = map<nat, (nat, nat)>

  ghost predicate Placed(ps: seq<Word>, pr: Params, t: Tables, at: Places, h: nat)
    requires h in at
  {
    var b := Listed(ps, h, pr);
    b != [] && Holds(t, h, b, b[0], at[h].0, at[h].1)
  }

  /** Whether `hash` is the hash of a block of `p` that ends at or before `k`; no block fits in less than B. */
  ghost predicate SeenTo(found: bool, p: Word, k: nat, pr: Params, hash: nat) {
    1 <= pr.B && if k <= |p| then (found <==> hash in HashesTo(p, k, pr)) else |p| < pr.B && !found
  }

  lemma SeenNext(found: bool, found': bool, p: Word, k: nat, pr: Params, hash: nat)
    requires SeenTo(found, p, k, pr, hash) && pr.B <= k + 1 <= |p|
    requires found' <==> found || pr.hash(Block(p, k + 1, pr.B)) == hash
    ensures SeenTo(found', p, k + 1, pr, hash)
  {
  }

  lemma SeenAll(found: bool, p: Word, k: nat, pr: Params, hash: nat)
    requires SeenTo(found, p, k, pr, hash) && |p| <= k
    ensures found <==> HasHash(p, hash, pr)
  {
    if k <= |p| { HashesMember(p, pr, hash); }
  }

  /** Exactly the hashes in `at` are expanded; hash 0 never is. */
  ghost predicate Built(ps: seq<Word>, pr: Params, M: nat, t: Tables, at: Places) {
    && 1 <= pr.B && Shaped(t, M) && 0 !in at
    && (forall h {:trigger Placed(ps, pr, t, at, h)} :: h in at ==> Placed(ps, pr, t, at, h))
    && (forall h: nat :: h < M && h !in at ==> t.cont[h] == 0)
    && t.nData == DataUsed(ps, at.Keys, pr)
    && t.nSize == SizesUsed(ps, at.Keys, pr)
  }

  /** The bucket of `h` is being filled, at the end of the arrays, from the first `j` patterns. */
  ghost predicate Filling(ps: seq<Word>, pr: Params, M: nat, t: Tables, at: Places, h: nat, j: nat,
                          first: Word, d: nat, s: nat) {
    && 1 <= pr.B && Shaped(t, M) && 0 < h < M && h !in at && 0 !in at && j <= |ps|
    && (forall h' {:trigger Placed(ps, pr, t, at, h')} :: h' in at ==> Placed(ps, pr, t, at, h'))
    && (forall h': nat :: h' < M && h' !in at && h' != h ==> t.cont[h'] == 0)
    && Holds(t, h, Listed(ps[..j], h, pr), first, d, s)
    && t.nData == d + |Cat(Listed(ps[..j], h, pr))| && t.nSize == s + |Listed(ps[..j], h, pr)|
    && d == DataUsed(ps, at.Keys, pr) && s == SizesUsed(ps, at.Keys, pr)
  }

  lemma StartBuilt(ps: seq<Word>, pr: Params, M: nat, t: Tables)
    requires 1 <= pr.B && Shaped(t, M) && t.nData == t.nSize == 0 && forall h: nat :: h < M ==> t.cont[h] == 0
    ensures Built(ps, pr, M, t, map[])
  {
    NothingUsed(ps, pr);
  }

  lemma StartFilling(ps: seq<Word>, pr: Params, M: nat, t: Tables, at: Places, h: nat, first: Word)
    requires Built(ps, pr, M, t, at) && 0 < h < M && h !in at
    ensures Filling(ps, pr, M, t, at, h, 0, first, t.nData, t.nSize)
  {
    assert ps[..0] == [];
  }

  /** The arrays have the computed sizes: `tbHDataSize` characters, an entry for every pair. */
  ghost predicate Roomy(ps: seq<Word>, pr: Params, chars: nat, sizes: nat)
    requires 1 <= pr.B
  {
    DataBound(ps, pr.B) <= chars && PairCount(ps, pr) <= sizes
  }

  lemma {:induction false} ListedGrows(ps: seq<Word>, j: nat, h: nat, pr: Params)
    requires j <= |ps|
    ensures |Cat(Listed(ps[..j], h, pr))| <= |Cat(Listed(ps, h, pr))|
    ensures |Listed(ps[..j], h, pr)| <= |Listed(ps, h, pr)|
    decreases |ps| - j
  {
    if j < |ps| {
      ListedSnoc(ps, j, h, pr);
      ListedGrows(ps, j + 1, h, pr);
      var b := Listed(ps[..j], h, pr);
      if HasHash(ps[j], h, pr) {
        CatSnoc(b, ps[j]);
      } else {
        assert b + [] == b;
      }
    } else {
      assert ps[..j] == ps;
    }
  }

  /** What is still to be appended fits. */
  lemma FillFits(ps: seq<Word>, pr: Params, M: nat, t: Tables, at: Places, h: nat, j: nat,
                 first: Word, d: nat, s: nat)
    requires Filling(ps, pr, M, t, at, h, j, first, d, s) && Roomy(ps, pr, |t.data|, |t.size|)
    requires j < |ps| && HasHash(ps[j], h, pr)
    ensures t.nData + |ps[j]| <= |t.data| && t.nSize < |t.size|
  {
    ListedSnoc(ps, j, h, pr);
    CatSnoc(Listed(ps[..j], h, pr), ps[j]);
    ListedGrows(ps, j + 1, h, pr);
    UsedByOneMore(ps, at.Keys, h, pr);
    DataFits(ps, at.Keys + {h}, pr);
    SizesFit(ps, at.Keys + {h}, pr);
  }

  /** The buckets already built survive an append. */
  lemma FillFrame(ps: seq<Word>, pr: Params, t: Tables, at: Places, h: nat, p: Word, own: bool, h': nat)
    requires h' in at && h' != h && Placed(ps, pr, t, at, h')
    requires h < |t.pos| == |t.cont| == |t.idx| && t.nData + |p| <= |t.data| && t.nSize < |t.size|
    ensures Placed(ps, pr, Append(t, h, p, own), at, h')
  {
    var b' := Listed(ps, h', pr);
    AppendFrame(t, h, p, own, h', b', b'[0], at[h'].0, at[h'].1);
  }

  /** A pattern with a block hashing to `h` is appended. */
  lemma FillOne(ps: seq<Word>, pr: Params, M: nat, t: Tables, at: Places, h: nat, j: nat,
                first: Word, d: nat, s: nat)
    requires Filling(ps, pr, M, t, at, h, j, first, d, s)
    requires j < |ps| && HasHash(ps[j], h, pr) && t.nData + |ps[j]| <= |t.data| && t.nSize < |t.size|
    ensures Filling(ps, pr, M, Append(t, h, ps[j], ps[j] == first), at, h, j + 1, first, d, s)
  {
    var b, p := Listed(ps[..j], h, pr), ps[j];
    ListedSnoc(ps, j, h, pr);
    CatSnoc(b, p);
    AppendHolds(t, h, b, first, d, s, p);
    FillFrames(ps, pr, t, at, h, p, p == first);
  }

  lemma FillFrames(ps: seq<Word>, pr: Params, t: Tables, at: Places, h: nat, p: Word, own: bool)
    requires h !in at && forall h' {:trigger Placed(ps, pr, t, at, h')} :: h' in at ==> Placed(ps, pr, t, at, h')
    requires h < |t.pos| == |t.cont| == |t.idx| && t.nData + |p| <= |t.data| && t.nSize < |t.size|
    ensures var t' := Append(t, h, p, own);
            forall h' {:trigger Placed(ps, pr, t', at, h')} :: h' in at ==> Placed(ps, pr, t', at, h')
  {
    forall h' | h' in at ensures Placed(ps, pr, Append(t, h, p, own), at, h') {
      FillFrame(ps, pr, t, at, h, p, own, h');
    }
  }

  lemma FillNone(ps: seq<Word>, pr: Params, M: nat, t: Tables, at: Places, h: nat, j: nat,
                 first: Word, d: nat, s: nat)
    requires Filling(ps, pr, M, t, at, h, j, first, d, s)
    requires j < |ps| && !HasHash(ps[j], h, pr)
    ensures Filling(ps, pr, M, t, at, h, j + 1, first, d, s)
  {
    ListedSnoc(ps, j, h, pr);
    assert Listed(ps[..j + 1], h, pr) == Listed(ps[..j], h, pr);
  }

  /** Pattern `j` is appended if it has the hash, and fits. */
  lemma FillNext(ps: seq<Word>, pr: Params, M: nat, t: Tables, at: Places, h: nat, j: nat,
                 first: Word, d: nat, s: nat)
    requires Filling(ps, pr, M, t, at, h, j, first, d, s) && Roomy(ps, pr, |t.data|, |t.size|) && j < |ps|
    ensures HasHash(ps[j], h, pr) ==>
              t.nData + |ps[j]| <= |t.data| && t.nSize < |t.size| &&
              Filling(ps, pr, M, Append(t, h, ps[j], ps[j] == first), at, h, j + 1, first, d, s)
    ensures !HasHash(ps[j], h, pr) ==> Filling(ps, pr, M, t, at, h, j + 1, first, d, s)
  {
    if HasHash(ps[j], h, pr) {
      FillFits(ps, pr, M, t, at, h, j, first, d, s);
      FillOne(ps, pr, M, t, at, h, j, first, d, s);
    } else {
      FillNone(ps, pr, M, t, at, h, j, first, d, s);
    }
  }

  lemma DoneFilling(ps: seq<Word>, pr: Params, M: nat, t: Tables, at: Places, h: nat,
                    first: Word, d: nat, s: nat)
    requires Filling(ps, pr, M, t, at, h, |ps|, first, d, s)
    requires Listed(ps, h, pr) != [] && first == Listed(ps, h, pr)[0]
    ensures Built(ps, pr, M, t, at[h := (d, s)])
  {
    assert ps[..|ps|] == ps;
    UsedByPlace(ps, pr, at, h, (d, s));
    DonePlaced(ps, pr, t, at, h, d, s);
  }

  lemma DonePlaced(ps: seq<Word>, pr: Params, t: Tables, at: Places, h: nat, d: nat, s: nat)
    requires h !in at && forall h' {:trigger Placed(ps, pr, t, at, h')} :: h' in at ==> Placed(ps, pr, t, at, h')
    requires Listed(ps, h, pr) != [] && Holds(t, h, Listed(ps, h, pr), Listed(ps, h, pr)[0], d, s)
    ensures var at' := at[h := (d, s)];
            forall h' {:trigger Placed(ps, pr, t, at', h')} :: h' in at' ==> Placed(ps, pr, t, at', h')
  {
    var at' := at[h := (d, s)];
    forall h' | h' in at' ensures Placed(ps, pr, t, at', h') {
      if h' == h {
        PlacedNow(ps, pr, t, at', h);
      } else {
        assert Placed(ps, pr, t, at, h');
        PlacedKept(ps, pr, t, at, at', h');
      }
    }
  }

  lemma UsedByPlace(ps: seq<Word>, pr: Params, at: Places, h: nat, place: (nat, nat))
    requires 1 <= pr.B && h !in at
    ensures DataUsed(ps, at[h := place].Keys, pr) == DataUsed(ps, at.Keys, pr) + |Cat(Listed(ps, h, pr))|
    ensures SizesUsed(ps, at[h := place].Keys, pr) == SizesUsed(ps, at.Keys, pr) + |Listed(ps, h, pr)|
  {
    assert at[h := place].Keys == at.Keys + {h};
    UsedByOneMore(ps, at.Keys, h, pr);
  }

  lemma PlacedNow(ps: seq<Word>, pr: Params, t: Tables, at: Places, h: nat)
    requires h in at && Listed(ps, h, pr) != []
    requires Holds(t, h, Listed(ps, h, pr), Listed(ps, h, pr)[0], at[h].0, at[h].1)
    ensures Placed(ps, pr, t, at, h)
  {
  }

  lemma PlacedKept(ps: seq<Word>, pr: Params, t: Tables, at: Places, at': Places, h: nat)
    requires h in at && h in at' && at[h] == at'[h] && Placed(ps, pr, t, at, h)
    ensures Placed(ps, pr, t, at', h)
  {
  }

  /** A hash no earlier pattern has lists the pattern being expanded first. */
  lemma {:induction false} FirstListed(ps: seq<Word>, i: nat, h: nat, pr: Params)
    requires i < |ps| && HasHash(ps[i], h, pr)
    requires forall k :: 0 <= k < i ==> !HasHash(ps[k], h, pr)
    ensures Listed(ps, h, pr) != [] && Listed(ps, h, pr)[0] == ps[i]
  {
    var init := ps[..|ps| - 1];
    if i < |init| {
      assert forall k :: 0 <= k < |init| ==> init[k] == ps[k];
      FirstListed(init, i, h, pr);
    } else {
      NoneListed(init, h, pr);
    }
  }

  lemma {:induction false} NoneListed(ps: seq<Word>, h: nat, pr: Params)
    requires forall k :: 0 <= k < |ps| ==> !HasHash(ps[k], h, pr)
    ensures Listed(ps, h, pr) == []
  {
    if ps == [] {
    } else {
      NoneListed(ps[..|ps| - 1], h, pr);
    }
  }

  /** Every non-zero hash of a block of `p` ending at or before `k` is expanded. */
  ghost predicate CoveredTo(p: Word, k: nat, pr: Params, at: Places)
    requires 1 <= pr.B && k <= |p|
  {
    k < pr.B ||
    (CoveredTo(p, k - 1, pr, at) && var h := pr.hash(Block(p, k, pr.B)); h == 0 || h in at)
  }

  /** So are those of the first `i` patterns. */
  ghost predicate Covered(ps: seq<Word>, i: nat, pr: Params, at: Places)
    requires 1 <= pr.B && i <= |ps|
  {
    i == 0 || (Covered(ps, i - 1, pr, at) && CoveredTo(ps[i - 1], |ps[i - 1]|, pr, at))
  }

  lemma {:induction false} CoveredToMember(p: Word, k: nat, pr: Params, at: Places, q: nat)
    requires 1 <= pr.B <= q <= k <= |p| && CoveredTo(p, k, pr, at)
    ensures var h := pr.hash(Block(p, q, pr.B)); h == 0 || h in at
  {
    if q == k {
    } else {
      CoveredToMember(p, k - 1, pr, at, q);
    }
  }

  lemma {:induction false} CoveredMember(ps: seq<Word>, i: nat, pr: Params, at: Places, k: nat, h: nat)
    requires 1 <= pr.B && k < i <= |ps| && Covered(ps, i, pr, at) && HasHash(ps[k], h, pr)
    ensures h == 0 || h in at
  {
    if k == i - 1 {
      var q: nat :| pr.B <= q <= |ps[k]| && pr.hash(Block(ps[k], q, pr.B)) == h;
      CoveredToMember(ps[k], |ps[k]|, pr, at, q);
    } else {
      CoveredMember(ps, i - 1, pr, at, k, h);
    }
  }

  /** A hash not yet expanded belongs to no earlier pattern. */
  lemma NotListedBefore(ps: seq<Word>, i: nat, pr: Params, at: Places, h: nat)
    requires 1 <= pr.B && i < |ps| && Covered(ps, i, pr, at) && h != 0 && h !in at
    ensures forall k :: 0 <= k < i ==> !HasHash(ps[k], h, pr)
  {
    forall k | 0 <= k < i ensures !HasHash(ps[k], h, pr) {
      if HasHash(ps[k], h, pr) { CoveredMember(ps, i, pr, at, k, h); }
    }
  }

  lemma {:induction false} CoveredToGrows(p: Word, k: nat, pr: Params, at: Places, at': Places)
    requires 1 <= pr.B && k <= |p| && CoveredTo(p, k, pr, at) && at.Keys <= at'.Keys
    ensures CoveredTo(p, k, pr, at')
  {
    if k < pr.B {
    } else {
      CoveredToGrows(p, k - 1, pr, at, at');
      var h := pr.hash(Block(p, k, pr.B));
      assert h in at ==> h in at'.Keys;
    }
  }

  lemma {:induction false} CoveredGrows(ps: seq<Word>, i: nat, pr: Params, at: Places, at': Places)
    requires 1 <= pr.B && i <= |ps| && Covered(ps, i, pr, at) && at.Keys <= at'.Keys
    ensures Covered(ps, i, pr, at')
  {
    if i == 0 {
    } else {
      CoveredGrows(ps, i - 1, pr, at, at');
      CoveredToGrows(ps[i - 1], |ps[i - 1]|, pr, at, at');
    }
  }

  /** One more block covered. */
  lemma CoverNext(ps: seq<Word>, i: nat, pr: Params, at: Places, at': Places, h: nat, k: nat, next: nat)
    requires 1 <= pr.B && i < |ps| && pr.B <= next == k + 1 <= |ps[i]|
    requires Covered(ps, i, pr, at) && CoveredTo(ps[i], k, pr, at)
    requires h == pr.hash(Block(ps[i], next, pr.B)) && (h == 0 || h in at') && at.Keys <= at'.Keys
    ensures Covered(ps, i, pr, at') && CoveredTo(ps[i], next, pr, at')
  {
    CoveredGrows(ps, i, pr, at, at');
    CoveredToGrows(ps[i], k, pr, at, at');
  }

  lemma CoverPattern(ps: seq<Word>, i: nat, k: nat, pr: Params, at: Places)
    requires 1 <= pr.B && i < |ps| && k == |ps[i]| && Covered(ps, i, pr, at) && CoveredTo(ps[i], k, pr, at)
    ensures Covered(ps, i + 1, pr, at)
  {
  }

  lemma AllCovered(ps: seq<Word>, pr: Params, M: nat, t: Tables, at: Places)
    requires Built(ps, pr, M, t, at) && Covered(ps, |ps|, pr, at)
    ensures forall h: nat :: h in at <==> 0 < h < M && Listed(ps, h, pr) != []
  {
    forall h: nat | 0 < h < M && Listed(ps, h, pr) != [] ensures h in at {
      var p := Listed(ps, h, pr)[0];
      ListedMember(ps, h, pr, p);
      var k :| 0 <= k < |ps| && ps[k] == p;
      CoveredMember(ps, |ps|, pr, at, k, h);
    }
    forall h: nat | h in at ensures 0 < h < M && Listed(ps, h, pr) != [] {
      assert Placed(ps, pr, t, at, h);
    }
  }

  /** Room for one more pattern. */
  ghost predicate Fits(t: Tables, p: Word, hash: nat) {
    && hash < |t.pos| == |t.cont| == |t.idx|
    && t.nData + |p| <= |t.data| && t.nSize < |t.size|
  }

  class WMGPUInspection {
    const padroes: seq<Word>
    const B: nat
    const M: nat
    const mix: Mixer
    const tbHData: array<Chr>
    const tbHPosData: array<int>
    const tbHContPadHash: array<nat>
    const tbHSizePadHash: array<nat>
    const tbHIdxSizePadHash: array<int>
    var conttbHData: nat
    var countSizePadHash: nat
    var arrHashEsgotados: seq<nat>
    /** The contents of the arrays and counters, as one value. */
    ghost var tables: Tables

    function P(): Params {
      FlatParams(B, mix)
    }

    ghost function T(): Tables
      reads this, tbHData, tbHPosData, tbHContPadHash, tbHSizePadHash, tbHIdxSizePadHash
    {
      Tables(tbHData[..], tbHPosData[..], tbHContPadHash[..], tbHSizePadHash[..], tbHIdxSizePadHash[..],
             conttbHData, countSizePadHash)
    }

    ghost predicate Synced()
      reads this, tbHData, tbHPosData, tbHContPadHash, tbHSizePadHash, tbHIdxSizePadHash
    {
      tbHPosData != tbHIdxSizePadHash && tbHContPadHash != tbHSizePadHash && tables == T()
    }

    /** The builder. The five arrays get the program's sizes, save that the size array gets
        `sizeRows` entries; the program gives it M. */
    constructor (ps: seq<Word>, B: nat, M: nat, mix: Mixer, sizeRows: nat)
      requires M > 0 && |ps| > 0 && 1 <= B && forall i :: 0 <= i < |ps| ==> B <= |ps[i]|
      ensures padroes == ps && this.B == B && this.M == M && this.mix == mix && Synced()
      ensures |tables.data| == DataSize(ps, B) && |tables.size| == sizeRows
      ensures Built(ps, P(), M, tables, map[])
      ensures forall h :: h in arrHashEsgotados <==> h == 0
      ensures fresh(tbHData) && fresh(tbHPosData) && fresh(tbHContPadHash) && fresh(tbHSizePadHash) && fresh(tbHIdxSizePadHash)
    {
      DataSizePositive(ps, B);
      var tbHDataSize := DataSize(ps, B);
      padroes := ps;
      this.B, this.M, this.mix := B, M, mix;
      tbHData := new Chr[tbHDataSize];
      tbHPosData, tbHIdxSizePadHash := new int[M], new int[M];
      tbHContPadHash, tbHSizePadHash := new nat[M](_ => 0), new nat[sizeRows];
      conttbHData, countSizePadHash := 0, 0;
      arrHashEsgotados := seq(tbHDataSize, _ => 0);
      new;
      tables := T();
      assert arrHashEsgotados[0] == 0;
      StartBuilt(ps, P(), M, tables);
    }

    /** `hashEsgotado`. */
    predicate HashEsgotado(hash: nat)
      reads this
    {
      hash in arrHashEsgotados
    }

    /** The two equal branches of `PrecarregaTabelaHash`: append one pattern to the bucket. */
    method AppendPattern(hash: nat, p: Word, own: bool)
      requires Synced() && Fits(tables, p, hash)
      modifies this`conttbHData, this`countSizePadHash, this`tables
      modifies tbHData, tbHPosData, tbHContPadHash, tbHSizePadHash, tbHIdxSizePadHash
      ensures Synced() && tables == Append(old(tables), hash, p, own)
    {
      CopyPattern(p);
      CountPattern(hash, conttbHData - |p| + 1, |p|, own);
      tables := Append(tables, hash, p, own);
    }

    /** The counts and places written after the characters. */
    method CountPattern(hash: nat, first: int, tam: nat, own: bool)
      requires hash < tbHPosData.Length == tbHContPadHash.Length == tbHIdxSizePadHash.Length
      requires countSizePadHash < tbHSizePadHash.Length
      requires tbHPosData != tbHIdxSizePadHash && tbHContPadHash != tbHSizePadHash
      modifies this`countSizePadHash, tbHPosData, tbHContPadHash, tbHSizePadHash, tbHIdxSizePadHash
      ensures tbHPosData[..] == if old(tbHContPadHash[hash]) == 0 then old(tbHPosData[..])[hash := first] else old(tbHPosData[..])
      ensures tbHContPadHash[..] == old(tbHContPadHash[..])[hash := old(tbHContPadHash[hash]) + 1]
      ensures tbHSizePadHash[..] == old(tbHSizePadHash[..])[old(countSizePadHash) := tam]
      ensures tbHIdxSizePadHash[..] == if own then old(tbHIdxSizePadHash[..])[hash := old(countSizePadHash)] else old(tbHIdxSizePadHash[..])
      ensures countSizePadHash == old(countSizePadHash) + 1
    {
      if tbHContPadHash[hash] == 0 {
        tbHPosData[hash] := first;
      }
      tbHContPadHash[hash] := tbHContPadHash[hash] + 1;
      tbHSizePadHash[countSizePadHash] := tam;
      if own {
        tbHIdxSizePadHash[hash] := countSizePadHash;
      }
      countSizePadHash := countSizePadHash + 1;
    }

    /** From the contents `t0`, pattern `p` has been appended if `found`, else nothing has. */
    ghost predicate Tried(found: bool, t0: Tables, hash: nat, p: Word, own: bool)
      reads this, tbHData, tbHPosData, tbHContPadHash, tbHSizePadHash, tbHIdxSizePadHash
    {
      Synced() && if found then Fits(t0, p, hash) && tables == Append(t0, hash, p, own) else tables == t0
    }

    /** One block of a pattern: it is appended if the block has the hash and it has not been yet. */
    method TryBlock(hash: nat, strTemp2: Word, idxInicio2: nat, own: bool, found: bool, ghost t0: Tables, ghost end: nat)
      returns (found': bool)
      requires Tried(found, t0, hash, strTemp2, own) && Reduces(mix, M) && 1 <= B && end == idxInicio2 + B <= |strTemp2|
      requires HasHash(strTemp2, hash, P()) ==> Fits(t0, strTemp2, hash)
      modifies this`conttbHData, this`countSizePadHash, this`tables
      modifies tbHData, tbHPosData, tbHContPadHash, tbHSizePadHash, tbHIdxSizePadHash
      ensures Tried(found', t0, hash, strTemp2, own)
      ensures found' <==> found || P().hash(Block(strTemp2, end, B)) == hash
    {
      found' := found;
      var hash2 := BlockHash(strTemp2, idxInicio2, end);
      if hash == hash2 && !found {
        AppendPattern(hash, strTemp2, own);
        found' := true;
      }
    }

    /** The block loop of `PrecarregaTabelaHash` for one pattern: it is appended at its first
        block with this hash, and not again. */
    method ExpandPattern(strTemp: Word, hash: nat, strTemp2: Word)
      requires Synced() && Reduces(mix, M) && 1 <= B && (HasHash(strTemp2, hash, P()) ==> Fits(tables, strTemp2, hash))
      modifies this`conttbHData, this`countSizePadHash, this`tables
      modifies tbHData, tbHPosData, tbHContPadHash, tbHSizePadHash, tbHIdxSizePadHash
      ensures Synced()
      ensures HasHash(strTemp2, hash, P()) ==> tables == Append(old(tables), hash, strTemp2, strTemp2 == strTemp)
      ensures !HasHash(strTemp2, hash, P()) ==> tables == old(tables)
    {
      var hashEsgotadoPadraoAtual, own := false, strTemp2 == strTemp;
      var idxInicio2, idxFim2 := 0, B - 1;
      ghost var t0, pr := tables, P();
      while idxFim2 < |strTemp2|
        invariant 0 <= idxInicio2 && idxFim2 == idxInicio2 + B - 1
        invariant Tried(hashEsgotadoPadraoAtual, t0, hash, strTemp2, own)
        invariant SeenTo(hashEsgotadoPadraoAtual, strTemp2, idxFim2, pr, hash)
      {
        ghost var found, k := hashEsgotadoPadraoAtual, idxFim2;
        hashEsgotadoPadraoAtual := TryBlock(hash, strTemp2, idxInicio2, own, hashEsgotadoPadraoAtual, t0, idxFim2 + 1);
        SeenNext(found, hashEsgotadoPadraoAtual, strTemp2, k, pr, hash);
        idxInicio2, idxFim2 := NextWindow(idxInicio2, idxFim2);
      }
      SeenAll(hashEsgotadoPadraoAtual, strTemp2, idxFim2, pr, hash);
    }

    /** One turn of the pattern loop of `PrecarregaTabelaHash`. */
    method FillPattern(strTemp: Word, hash: nat, j: nat, ghost at: Places, ghost d: nat, ghost s: nat)
      requires Synced() && Reduces(mix, M) && j < |padroes| && 1 <= B
      requires Filling(padroes, P(), M, tables, at, hash, j, strTemp, d, s)
      requires Roomy(padroes, P(), |tables.data|, |tables.size|)
      modifies this`conttbHData, this`countSizePadHash, this`tables
      modifies tbHData, tbHPosData, tbHContPadHash, tbHSizePadHash, tbHIdxSizePadHash
      ensures Synced() && |tables.data| == old(|tables.data|) && |tables.size| == old(|tables.size|)
      ensures Filling(padroes, P(), M, tables, at, hash, j + 1, strTemp, d, s)
    {
      FillNext(padroes, P(), M, tables, at, hash, j, strTemp, d, s);
      ExpandPattern(strTemp, hash, padroes[j]);
    }

    /** `PrecarregaTabelaHash`: expand one hash, met first in pattern `i`, over all patterns. */
    method PrecarregaTabelaHash(i: nat, hash: nat, ghost at: Places) returns (ghost at': Places)
      requires Synced() && Reduces(mix, M) && 0 < hash < M && hash !in at && i < |padroes|
      requires HasHash(padroes[i], hash, P()) && forall k :: 0 <= k < i ==> !HasHash(padroes[k], hash, P())
      requires 1 <= B && Roomy(padroes, P(), |tables.data|, |tables.size|)
      requires Built(padroes, P(), M, tables, at)
      modifies this`conttbHData, this`countSizePadHash, this`arrHashEsgotados, this`tables
      modifies tbHData, tbHPosData, tbHContPadHash, tbHSizePadHash, tbHIdxSizePadHash
      ensures Synced() && |tables.data| == old(|tables.data|) && |tables.size| == old(|tables.size|)
      ensures Built(padroes, P(), M, tables, at') && at'.Keys == at.Keys + {hash}
      ensures arrHashEsgotados == old(arrHashEsgotados) + [hash]
    {
      var strTemp := padroes[i];
      ghost var d, s := tables.nData, tables.nSize;
      StartFilling(padroes, P(), M, tables, at, hash, strTemp);
      FillBucket(strTemp, hash, at, d, s);
      FirstListed(padroes, i, hash, P());
      DoneFilling(padroes, P(), M, tables, at, hash, strTemp, d, s);
      at' := at[hash := (d, s)];
    }

    /** The pattern loop of `PrecarregaTabelaHash`; the hash is exhausted after the last pattern. */
    method FillBucket(strTemp: Word, hash: nat, ghost at: Places, ghost d: nat, ghost s: nat)
      requires Synced() && Reduces(mix, M) && |padroes| > 0 && 1 <= B
      requires Filling(padroes, P(), M, tables, at, hash, 0, strTemp, d, s)
      requires Roomy(padroes, P(), |tables.data|, |tables.size|)
      modifies this`conttbHData, this`countSizePadHash, this`arrHashEsgotados, this`tables
      modifies tbHData, tbHPosData, tbHContPadHash, tbHSizePadHash, tbHIdxSizePadHash
      ensures Synced() && |tables.data| == old(|tables.data|) && |tables.size| == old(|tables.size|)
      ensures Filling(padroes, P(), M, tables, at, hash, |padroes|, strTemp, d, s)
      ensures arrHashEsgotados == old(arrHashEsgotados) + [hash]
    {
      for j := 0 to |padroes|
        invariant Synced() && |tables.data| == old(|tables.data|) && |tables.size| == old(|tables.size|)
        invariant Filling(padroes, P(), M, tables, at, hash, j, strTemp, d, s)
        invariant arrHashEsgotados == old(arrHashEsgotados) + if j == |padroes| then [hash] else []
      {
        FillPattern(strTemp, hash, j, at, d, s);
        if j == |padroes| - 1 {
          arrHashEsgotados := arrHashEsgotados + [hash];
        }
      }
    }

    /** `vecPermu1_1`: expand every hash of every block, unless it is exhausted. */
    method VecPermu1_1() returns (ghost at: Places)
      requires Synced() && Reduces(mix, M) && 1 <= B && forall p :: p in padroes ==> B <= |p|
      requires Roomy(padroes, P(), |tables.data|, |tables.size|)
      requires Built(padroes, P(), M, tables, map[]) && forall h :: h in arrHashEsgotados <==> h == 0
      modifies this`conttbHData, this`countSizePadHash, this`arrHashEsgotados, this`tables
      modifies tbHData, tbHPosData, tbHContPadHash, tbHSizePadHash, tbHIdxSizePadHash
      ensures Synced() && |tables.data| == old(|tables.data|) && |tables.size| == old(|tables.size|)
      ensures Built(padroes, P(), M, tables, at)
      ensures forall h: nat :: h in at <==> 0 < h < M && Listed(padroes, h, P()) != []
    {
      at := map[];
      for i := 0 to |padroes|
        invariant |tables.data| == old(|tables.data|) && |tables.size| == old(|tables.size|)
        invariant Expanded(at, i)
      {
        at := ExpandHashes(i, at);
      }
      AllCovered(padroes, P(), M, tables, at);
    }

    /** The exhausted list is the expanded hashes and 0; those of the first `i` patterns are expanded. */
    ghost predicate Expanded(at: Places, i: nat)
      requires M > 0 && 1 <= B
      reads this, tbHData, tbHPosData, tbHContPadHash, tbHSizePadHash, tbHIdxSizePadHash
    {
      && Synced() && Built(padroes, P(), M, tables, at)
      && Roomy(padroes, P(), |tables.data|, |tables.size|)
      && (forall h {:trigger h in arrHashEsgotados} :: h in arrHashEsgotados <==> h == 0 || h in at)
      && i <= |padroes| && Covered(padroes, i, P(), at)
    }

    /** The block loop of `vecPermu1_1` for pattern `i`. */
    method ExpandHashes(i: nat, ghost at: Places) returns (ghost at': Places)
      requires Reduces(mix, M) && 1 <= B && Expanded(at, i) && i < |padroes| && B <= |padroes[i]|
      modifies this`conttbHData, this`countSizePadHash, this`arrHashEsgotados, this`tables
      modifies tbHData, tbHPosData, tbHContPadHash, tbHSizePadHash, tbHIdxSizePadHash
      ensures Expanded(at', i + 1)
      ensures |tables.data| == old(|tables.data|) && |tables.size| == old(|tables.size|)
    {
      at' := at;
      ghost var k: nat := B - 1;
      var idxInicio, idxFim := 0, B - 1;
      while idxFim < |padroes[i]|
        invariant 0 <= idxInicio && idxFim == idxInicio + B - 1 == k <= |padroes[i]|
        invariant |tables.data| == old(|tables.data|) && |tables.size| == old(|tables.size|)
        invariant Expanded(at', i) && CoveredTo(padroes[i], k, P(), at')
      {
        ghost var next := k + 1;
        at' := ExpandBlock(i, idxInicio, at', k, next);
        k := next;
        idxInicio, idxFim := NextWindow(idxInicio, idxFim);
      }
      CoverPattern(padroes, i, k, P(), at');
    }

    /** One block: expand its hash unless it is exhausted. */
    method ExpandBlock(i: nat, idxInicio: nat, ghost at: Places, ghost k: nat, ghost next: nat) returns (ghost at': Places)
      requires Reduces(mix, M) && 1 <= B && Expanded(at, i) && i < |padroes|
      requires next == k + 1 == idxInicio + B <= |padroes[i]| && CoveredTo(padroes[i], k, P(), at)
      modifies this`conttbHData, this`countSizePadHash, this`arrHashEsgotados, this`tables
      modifies tbHData, tbHPosData, tbHContPadHash, tbHSizePadHash, tbHIdxSizePadHash
      ensures Expanded(at', i) && CoveredTo(padroes[i], next, P(), at')
      ensures |tables.data| == old(|tables.data|) && |tables.size| == old(|tables.size|)
    {
      var hash := BlockHash(padroes[i], idxInicio, next);
      at' := at;
      if !HashEsgotado(hash) {
        NotListedBefore(padroes, i, P(), at, hash);
        at' := PrecarregaTabelaHash(i, hash, at);
      }
      CoverNext(padroes, i, P(), at, at', hash, k, next);
    }

    /** Copy out the block that starts at `idxInicio` and hash it. */
    method BlockHash(strTemp: Word, idxInicio: nat, ghost end: nat) returns (hash: nat)
      requires Reduces(mix, M) && 1 <= B && end == idxInicio + B <= |strTemp|
      ensures hash == P().hash(Block(strTemp, end, P().B)) && hash < M
      ensures HasHash(strTemp, hash, P())
    {
      var subStrPerm := strTemp[idxInicio..idxInicio + B];
      hash := HashLoop(subStrPerm, 0, |subStrPerm|, mix);
      assert subStrPerm[0..0 + |subStrPerm|] == subStrPerm == Block(strTemp, end, B);
      RollHashReduced(subStrPerm, mix, M);
    }

    /** The character loop of `AppendPattern`. */
    method CopyPattern(p: Word)
      requires conttbHData + |p| <= tbHData.Length
      modifies this`conttbHData, tbHData
      ensures conttbHData == old(conttbHData) + |p|
      ensures tbHData[..] == old(tbHData[..conttbHData]) + p + old(tbHData[conttbHData + |p|..])
    {
      var min := conttbHData;
      for d := min to min + |p|
        invariant conttbHData == d
        invariant tbHData[..] == old(tbHData[..min]) + p[..d - min] + old(tbHData[d..])
      {
        tbHData[d] := p[d - min];
        conttbHData := conttbHData + 1;
      }
    }
  }

  /** `buildMatchingMachine1_1`: allocate and fill. Exactly `PairCount` size entries are written,
      so the program's M entries suffice exactly when there are at most M (hash, pattern) pairs. */
  method BuildMatchingMachine1_1(ps: seq<Word>, B: nat, M: nat, mix: Mixer, sizeRows: nat)
    returns (wm: WMGPUInspection, ghost at: Places)
    requires Reduces(mix, M) && |ps| > 0 && 1 <= B && forall i :: 0 <= i < |ps| ==> B <= |ps[i]|
    requires PairCount(ps, FlatParams(B, mix)) <= sizeRows
    ensures wm.padroes == ps && wm.B == B && wm.M == M && wm.mix == mix
    ensures wm.Synced() && Built(ps, FlatParams(B, mix), M, wm.tables, at)
    ensures forall h: nat :: h in at <==> 0 < h < M && Listed(ps, h, FlatParams(B, mix)) != []
    ensures wm.countSizePadHash == PairCount(ps, FlatParams(B, mix))
    ensures wm.conttbHData <= wm.tbHData.Length == DataSize(ps, B)
  {
    wm := new WMGPUInspection(ps, B, M, mix, sizeRows);
    DataBoundIsSize(ps, B);
    at := wm.VecPermu1_1();
    forall b ensures wm.P().hash(b) < M { RollHashReduced(b, mix, M); }
    EveryPairPlaced(ps, wm.P(), M, at);
    SizesFit(ps, at.Keys, wm.P());
  }

  lemma EveryPairPlaced(ps: seq<Word>, pr: Params, M: nat, at: Places)
    requires 1 <= pr.B && forall b :: pr.hash(b) < M
    requires forall h: nat :: h in at <==> 0 < h < M && Listed(ps, h, pr) != []
    ensures forall p :: p in ps ==> Hashes(p, pr) - {0} <= at.Keys
  {
    forall p, h | p in ps && h in Hashes(p, pr) - {0} ensures h in at.Keys {
      HashesMember(p, pr, h);
      ListedMember(ps, h, pr, p);
      var q: nat :| pr.B <= q <= |p| && pr.hash(Block(p, q, pr.B)) == h;
    }
  }

  lemma {:induction false} DataSizePositive(ps: seq<Word>, B: nat)
    requires 1 <= B && forall i :: 0 <= i < |ps| ==> B <= |ps[i]|
    ensures DataSize(ps, B) >= |ps|
  {
    if ps == [] {
    } else {
      var p := ps[|ps| - 1];
      DataSizePositive(ps[..|ps| - 1], B);
      TimesIsProduct(|p|, |p| - B + 1);
      TimesMonotone(|p|, 1, |p| - B + 1);
      assert Times(|p|, 1) == |p|;
    }
  }

  lemma {:induction false} NothingUsed(ps: seq<Word>, pr: Params)
    requires 1 <= pr.B
    ensures DataUsed(ps, {}, pr) == 0 && SizesUsed(ps, {}, pr) == 0
  {
    if ps == [] {
    } else {
      NothingUsed(ps[..|ps| - 1], pr);
      assert {} * Hashes(ps[|ps| - 1], pr) == {};
    }
  }
}
