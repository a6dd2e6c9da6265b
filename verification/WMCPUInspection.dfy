/** The Wu-Manber matcher of the CPU: table construction and the skipping scan. */
module WMCPUInspectionModule {
  import opened Strings
  import opened WuManber

  /** Every block of `p`, left to right. */
  function Windows(p: Word, B: nat): seq<Word>
    requires 1 <= B <= |p|
  {
    seq(|p| - B + 1, k requires 0 <= k <= |p| - B => Block(p, k + B, B))
  }

  lemma WindowsSnoc(p: Word, B: nat, k: nat)
    requires 1 <= B && k + B <= |p|
    ensures Windows(p, B)[..k + 1] == Windows(p, B)[..k] + [p[k..k + B]]
  {
    assert Block(p, k + B, B) == p[k..k + B];
  }

  function AddOnce<T(==)>(bucket: seq<T>, x: T): seq<T> {
    if x in bucket then bucket else bucket + [x]
  }

  function Flatten(v: seq<seq<Word>>): seq<Word> {
    if v == [] then [] else Flatten(v[..|v| - 1]) + v[|v| - 1]
  }

  lemma FlattenSnoc(v: seq<seq<Word>>, k: nat)
    requires k < |v|
    ensures Flatten(v[..k + 1]) == Flatten(v[..k]) + v[k]
  {
    assert v[..k + 1][..k] == v[..k];
  }

  lemma {:induction false} FlattenMember(v: seq<seq<Word>>, b: Word)
    ensures b in Flatten(v) <==> exists k :: 0 <= k < |v| && b in v[k]
  {
    if v == [] {
    } else {
      var init := v[..|v| - 1];
      FlattenMember(init, b);
      assert forall k :: 0 <= k < |init| ==> init[k] == v[k];
    }
  }

  /** The (pattern, hash) pairs of the first `k` windows of `p`. */
  ghost function Pairs(p: Word, k: nat, pr: Params): set<(Word, nat)> {
    set q: nat | pr.B <= q <= |p| && q < pr.B + k :: (p, pr.hash(Block(p, q, pr.B)))
  }

  lemma PairsSnoc(base: set<(Word, nat)>, p: Word, k: nat, pr: Params)
    requires k + pr.B <= |p|
    ensures base + Pairs(p, k + 1, pr) == base + Pairs(p, k, pr) + {(p, pr.hash(p[k..k + pr.B]))}
  {
    assert Block(p, k + pr.B, pr.B) == p[k..k + pr.B];
  }

  lemma PairsEnd(p: Word, k: nat, pr: Params)
    requires k + pr.B == |p| + 1
    ensures Pairs(p, k, pr) == Pairs(p, |p| + 1, pr)
  {
  }

  ghost function AllPairs(ps: seq<Word>, pr: Params): set<(Word, nat)> {
    if ps == [] then {}
    else AllPairs(ps[..|ps| - 1], pr) + Pairs(ps[|ps| - 1], |ps[|ps| - 1]| + 1, pr)
  }

  lemma AllPairsSnoc(ps: seq<Word>, i: nat, pr: Params)
    requires i < |ps|
    ensures AllPairs(ps[..i + 1], pr) == AllPairs(ps[..i], pr) + Pairs(ps[i], |ps[i]| + 1, pr)
  {
    assert ps[..i + 1][..i] == ps[..i];
  }

  lemma {:induction false} AllPairsMember(ps: seq<Word>, pr: Params, p: Word, h: nat)
    ensures (p, h) in AllPairs(ps, pr) <==> p in ps && HasHash(p, h, pr)
  {
    if ps == [] {
    } else {
      var init, last := ps[..|ps| - 1], ps[|ps| - 1];
      AllPairsMember(init, pr, p, h);
      assert ps == init + [last];
    }
  }

  /** Each bucket of `tab` lists, once each, the first components paired with its index. */
  ghost predicate ListsPairs(tab: seq<seq<Word>>, loaded: set<(Word, nat)>) {
    forall h: nat :: h < |tab| ==> NoDup(tab[h]) && forall p :: p in tab[h] <==> (p, h) in loaded
  }

  /** `tabelaHASH_[h]` lists without duplicates exactly the patterns with a block hashing to `h`. */
  ghost predicate PatternTable(ps: seq<Word>, tab: seq<seq<Word>>, pr: Params) {
    forall h: nat :: h < |tab| ==>
      NoDup(tab[h]) && forall p :: p in tab[h] <==> p in ps && HasHash(p, h, pr)
  }

  lemma PairsListed(ps: seq<Word>, tab: seq<seq<Word>>, pr: Params)
    requires ListsPairs(tab, AllPairs(ps, pr))
    ensures PatternTable(ps, tab, pr)
  {
    forall h: nat, p | h < |tab| ensures (p, h) in AllPairs(ps, pr) <==> p in ps && HasHash(p, h, pr) {
      AllPairsMember(ps, pr, p, h);
    }
  }

  lemma AddPair(tab: seq<seq<Word>>, loaded: set<(Word, nat)>, p: Word, h: nat)
    requires ListsPairs(tab, loaded) && h < |tab|
    ensures ListsPairs(tab[h := AddOnce(tab[h], p)], loaded + {(p, h)})
  {
    if p !in tab[h] { NoDupSnoc(tab[h], p); }
  }

  /** `idx` lists, once each and under their hashes, exactly the blocks seen so far. */
  ghost predicate IndexedBlocks(idx: seq<seq<Word>>, seen: seq<Word>, hash: Word -> nat) {
    && (forall h: nat :: h < |idx| ==> NoDup(idx[h]) && forall b :: b in idx[h] <==> b in seen && hash(b) == h)
    && (forall b :: b in seen ==> hash(b) < |idx|)
  }

  /** The table is as long as at first, or one longer than the greatest hash that did not fit. */
  ghost predicate Grown(idx: seq<seq<Word>>, n: nat, seen: seq<Word>, hash: Word -> nat) {
    |idx| >= n && (|idx| == n || exists b :: b in seen && hash(b) + 1 == |idx|)
  }

  lemma EarlierKept(seen: seq<Word>, b: Word, x: Word, y: Word)
    requires Earlier(seen, x, y)
    ensures Earlier(seen + [b], x, y)
  {
    var k :| 0 <= k < |seen| && seen[k] == x && y !in seen[..k + 1];
    assert (seen + [b])[k] == x && (seen + [b])[..k + 1] == seen[..k + 1];
  }

  lemma EarlierNew(seen: seq<Word>, x: Word, b: Word)
    requires x in seen && b !in seen
    ensures Earlier(seen + [b], x, b)
  {
    var k :| 0 <= k < |seen| && seen[k] == x;
    assert (seen + [b])[k] == x && (seen + [b])[..k + 1] == seen[..k + 1];
    assert forall y :: y in seen[..k + 1] ==> y in seen;
  }

  lemma OrderKept(bucket: seq<Word>, seen: seq<Word>, b: Word)
    requires InOrder(bucket, seen)
    ensures InOrder(bucket, seen + [b])
  {
    forall i, j | 0 <= i < j < |bucket| ensures Earlier(seen + [b], bucket[i], bucket[j]) {
      EarlierKept(seen, b, bucket[i], bucket[j]);
    }
  }

  lemma OrderSnoc(bucket: seq<Word>, seen: seq<Word>, b: Word)
    requires InOrder(bucket, seen) && b !in seen && forall x :: x in bucket ==> x in seen
    ensures InOrder(bucket + [b], seen + [b])
  {
    var bucket' := bucket + [b];
    forall i, j | 0 <= i < j < |bucket'| ensures Earlier(seen + [b], bucket'[i], bucket'[j]) {
      if j < |bucket| { EarlierKept(seen, b, bucket[i], bucket[j]); } else { EarlierNew(seen, bucket[i], b); }
    }
  }

  /** Indexing a block keeps every bucket in the order of first occurrence. */
  lemma IndexStepOrder(idx: seq<seq<Word>>, seen: seq<Word>, hash: Word -> nat, b: Word)
    requires IndexedBlocks(idx, seen, hash) && AllInOrder(idx, seen)
    ensures AllInOrder(IndexStep(idx, b, hash(b)), seen + [b])
  {
    var idx' := IndexStep(idx, b, hash(b));
    forall h | 0 <= h < |idx'| ensures InOrder(idx'[h], seen + [b]) {
      if h < |idx| {
        if h == hash(b) && b !in idx[h] { OrderSnoc(idx[h], seen, b); } else { OrderKept(idx[h], seen, b); }
      }
    }
  }

  /** One block added: to its bucket if new there, growing the table when it is too short. */
  function IndexStep(idx: seq<seq<Word>>, b: Word, h: nat): seq<seq<Word>> {
    if h < |idx| then idx[h := AddOnce(idx[h], b)]
    else idx + seq(h - |idx|, _ => []) + [[b]]
  }

  lemma IndexStepLists(idx: seq<seq<Word>>, n: nat, seen: seq<Word>, hash: Word -> nat, b: Word)
    requires IndexedBlocks(idx, seen, hash) && Grown(idx, n, seen, hash)
    ensures IndexedBlocks(IndexStep(idx, b, hash(b)), seen + [b], hash)
    ensures Grown(IndexStep(idx, b, hash(b)), n, seen + [b], hash)
  {
    var h := hash(b);
    if h < |idx| && b !in idx[h] { NoDupSnoc(idx[h], b); }
    var seen' := seen + [b];
    assert b in seen' && forall x :: x in seen ==> x in seen';
  }

  /** The index of the blocks `seen`, begun with `n` entries: each once under its hash, in the order of first
      occurrence, in a table no longer than needed. */
  ghost predicate Indexed(idx: seq<seq<Word>>, n: nat, seen: seq<Word>, hash: Word -> nat) {
    IndexedBlocks(idx, seen, hash) && Grown(idx, n, seen, hash) && AllInOrder(idx, seen)
  }

  ghost predicate AllInOrder(idx: seq<seq<Word>>, seen: seq<Word>) {
    forall h :: 0 <= h < |idx| ==> InOrder(idx[h], seen)
  }

  lemma IndexNext(idx: seq<seq<Word>>, n: nat, seen: seq<Word>, hash: Word -> nat, b: Word)
    requires Indexed(idx, n, seen, hash)
    ensures Indexed(IndexStep(idx, b, hash(b)), n, seen + [b], hash)
  {
    IndexStepLists(idx, n, seen, hash, b);
    IndexStepOrder(idx, seen, hash, b);
  }

  /** The blocks cut from the patterns are the pattern blocks. */
  lemma CutBlocks(ps: seq<Word>, v: seq<seq<Word>>, B: nat, b: Word)
    requires 1 <= B && |v| == |ps|
    requires forall k :: 0 <= k < |ps| ==> B <= |ps[k]| && v[k] == Windows(ps[k], B)
    ensures b in Flatten(v) <==> exists i :: 0 <= i < |ps| && HasBlock(ps[i], b, B)
  {
    FlattenMember(v, b);
    forall k | 0 <= k < |ps| ensures b in v[k] <==> HasBlock(ps[k], b, B) { WindowsMember(ps[k], b, B); }
  }

  lemma WindowsMember(p: Word, b: Word, B: nat)
    requires 1 <= B <= |p|
    ensures b in Windows(p, B) <==> HasBlock(p, b, B)
  {
    var v := Windows(p, B);
    if HasBlock(p, b, B) {
      var q: nat :| B <= q <= |p| && Block(p, q, B) == b;
      assert v[q - B] == b;
    }
    if b in v {
      var j :| 0 <= j < |v| && v[j] == b;
      assert Block(p, j + B, B) == b;
    }
  }

  /** The finished index: the blocks, then the sentinel in a bucket of its own. */
  function WithSentinel(idx: seq<seq<Word>>): seq<seq<Word>>
    requires |idx| > 0
  {
    if idx[|idx| - 1] == [] then idx[|idx| - 1 := [[42]]] else idx + [[[42]]]
  }

  lemma SentinelIndex(ps: seq<Word>, v: seq<seq<Word>>, idx: seq<seq<Word>>, pr: Params)
    requires 1 <= pr.B && |v| == |ps| && |idx| > 0
    requires forall k :: 0 <= k < |ps| ==> pr.B <= |ps[k]| && v[k] == Windows(ps[k], pr.B)
    requires Indexed(idx, |Flatten(v)|, Flatten(v), pr.hash)
    ensures IndexOK(ps, v, WithSentinel(idx), pr)
  {
    assert IndexTable(ps, WithSentinel(idx), pr) by { SentinelTable(ps, v, idx, pr); }
    assert IndexSize(ps, |Flatten(v)|, |WithSentinel(idx)|, pr) by { SentinelSize(ps, v, idx, pr); }
    assert IndexOrder(WithSentinel(idx), Flatten(v));
  }

  /** What `TabelaHash` leaves of the blocks `v`, cut pattern by pattern. */
  ghost predicate IndexOK(ps: seq<Word>, v: seq<seq<Word>>, idx: seq<seq<Word>>, pr: Params) {
    IndexTable(ps, idx, pr) && IndexSize(ps, |Flatten(v)|, |idx|, pr) && IndexOrder(idx, Flatten(v))
  }

  lemma SentinelTable(ps: seq<Word>, v: seq<seq<Word>>, idx: seq<seq<Word>>, pr: Params)
    requires 1 <= pr.B && |v| == |ps| && |idx| > 0
    requires forall k :: 0 <= k < |ps| ==> pr.B <= |ps[k]| && v[k] == Windows(ps[k], pr.B)
    requires IndexedBlocks(idx, Flatten(v), pr.hash)
    ensures IndexTable(ps, WithSentinel(idx), pr)
  {
    var idx' := WithSentinel(idx);
    forall b ensures b in Flatten(v) <==> exists i :: 0 <= i < |ps| && HasBlock(ps[i], b, pr.B) {
      CutBlocks(ps, v, pr.B, b);
    }
    forall h: nat | h < |idx'| - 1 ensures Bucket(ps, idx'[h], h, pr) {
      assert idx'[h] == idx[h];
    }
    forall i, q: nat | 0 <= i < |ps| && pr.B <= q <= |ps[i]|
      ensures pr.hash(Block(ps[i], q, pr.B)) < |idx'| - 1
    {
      var b := Block(ps[i], q, pr.B);
      assert HasBlock(ps[i], b, pr.B) && b in Flatten(v);
      assert b in idx[pr.hash(b)];
    }
  }

  /** The size `n` of the finished index of `blocks` blocks: one entry for each, but at least two more than the
      greatest block hash. */
  ghost predicate IndexSize(ps: seq<Word>, blocks: nat, n: nat, pr: Params) {
    n >= blocks && (n == blocks || SomeHash(ps, pr, n - 2))
  }

  /** Some pattern block hashes to `h`. */
  ghost predicate SomeHash(ps: seq<Word>, pr: Params, h: int) {
    exists i, q: nat :: 0 <= i < |ps| && EndsHash(ps[i], q, pr, h)
  }

  ghost predicate EndsHash(p: Word, q: nat, pr: Params, h: int) {
    pr.B <= q <= |p| && pr.hash(p[q - pr.B..q]) == h
  }

  lemma SentinelSize(ps: seq<Word>, v: seq<seq<Word>>, idx: seq<seq<Word>>, pr: Params)
    requires 1 <= pr.B && |v| == |ps| && |idx| > 0
    requires forall k :: 0 <= k < |ps| ==> pr.B <= |ps[k]| && v[k] == Windows(ps[k], pr.B)
    requires IndexedBlocks(idx, Flatten(v), pr.hash) && Grown(idx, |Flatten(v)|, Flatten(v), pr.hash)
    ensures IndexSize(ps, |Flatten(v)|, |WithSentinel(idx)|, pr)
  {
    var h := |idx| - 1;
    assert |idx| > |Flatten(v)| ==> idx[h] != [] by { LastFilled(idx, |Flatten(v)|, Flatten(v), pr.hash); }
    if idx[h] != [] {
      var b := idx[h][0];
      assert b in Flatten(v) && pr.hash(b) == h by { assert b in idx[h]; }
      assert SomeHash(ps, pr, h) by { CutBlocks(ps, v, pr.B, b); BlockHash(ps, b, pr); }
    }
  }

  lemma LastFilled(idx: seq<seq<Word>>, n: nat, seen: seq<Word>, hash: Word -> nat)
    requires IndexedBlocks(idx, seen, hash) && Grown(idx, n, seen, hash) && |idx| > 0
    ensures |idx| > n ==> idx[|idx| - 1] != []
  {
    if |idx| > n {
      var b :| b in seen && hash(b) + 1 == |idx|;
      assert b in idx[|idx| - 1];
    }
  }

  lemma BlockHash(ps: seq<Word>, b: Word, pr: Params)
    requires exists i :: 0 <= i < |ps| && HasBlock(ps[i], b, pr.B)
    ensures SomeHash(ps, pr, pr.hash(b))
  {
    var i :| 0 <= i < |ps| && HasBlock(ps[i], b, pr.B);
    var q: nat :| pr.B <= q <= |ps[i]| && Block(ps[i], q, pr.B) == b;
    assert EndsHash(ps[i], q, pr, pr.hash(b));
  }

  /** The bytes of a pattern as a C string sees them: up to the first NUL. */
  function CStr(p: Word): (s: Word)
    ensures IsCStr(p, s) && (0 !in p ==> s == p)
  {
    if p == [] || p[0] == 0 then [] else [p[0]] + CStr(p[1..])
  }

  predicate IsCStr(p: Word, s: Word) {
    s <= p && 0 !in s && (|s| < |p| ==> p[|s|] == 0)
  }

  function CStrs(ps: seq<Word>): (ss: seq<Word>)
    ensures |ss| == |ps|
    ensures (forall p :: p in ps ==> 0 !in p) ==> ss == ps
  {
    seq(|ps|, i requires 0 <= i < |ps| => CStr(ps[i]))
  }

  /** Each pattern is cut at its first NUL, and nowhere else. */
  lemma CStrsCut(ps: seq<Word>, i: nat)
    requires i < |ps|
    ensures IsCStr(ps[i], CStrs(ps)[i])
  {
  }

  /** The comparison loop: from the last character backwards. */
  method EndsWith(subData: Word, str: Word) returns (matched: bool)
    ensures matched <==> IsSuffix(str, subData)
  {
    if |str| <= |subData| { SuffixByIndex(str, subData); }
    matched := true;
    var final := |subData| - 1;
    var ch := |str| - 1;
    while ch >= 0
      invariant -1 <= ch < |str| && final == |subData| - |str| + ch && final >= -1
      invariant matched && forall k :: ch < k < |str| ==> str[k] == subData[|subData| - |str| + k]
    {
      if final >= 0 {
        if str[ch] == subData[final] {
          final := final - 1;
        } else {
          matched := false;
          break;
        }
      } else {
        matched := false;
        break;
      }
      ch := ch - 1;
    }
  }

  /** A pattern ending at `pos` is listed under the hash of the block that ends there. */
  lemma SuffixIsListed(ps: seq<Word>, tab: seq<seq<Word>>, pr: Params, p: Word, data: Word, pos: nat)
    requires PatternTable(ps, tab, pr) && p in ps && 1 <= pr.B <= |p|
    requires pr.B <= pos <= |data| && IsSuffix(p, data[..pos])
    requires pr.hash(Block(data, pos, pr.B)) < |tab|
    ensures p in tab[pr.hash(Block(data, pos, pr.B))]
  {
    assert p == data[..pos][pos - |p|..];
    assert Block(p, |p|, pr.B) == Block(data, pos, pr.B);
  }

  /** Pattern `p` ends at `e` and the scan stops there, having stayed inside the shift table. */
  ghost predicate Hit(ps: seq<Word>, data: Word, tb: seq<int>, pr: Params, p: Word, e: nat)
    requires GoodParams(pr)
  {
    p in ps && pr.m <= e <= |data| && IsSuffix(p, data[..e]) && Stops(data, tb, pr, pr.m, e)
  }

  /** From `pos` on, the scan begun at `start` stands and stops where one begun at `pos` does. */
  ghost predicate SameStops(data: Word, tb: seq<int>, pr: Params, start: nat, pos: nat)
    requires pr.B <= start && pr.B <= pos
  {
    forall e: nat :: pos <= e <= |data| ==>
      && Stops(data, tb, pr, start, e) == Stops(data, tb, pr, pos, e)
      && Reaches(data, tb, pr, start, e) == Reaches(data, tb, pr, pos, e)
  }

  lemma SkipStops(data: Word, tb: seq<int>, pr: Params, pos: nat)
    requires pr.B <= pos <= |data| && HasEntry(data, tb, pr, pos)
    ensures var next := Next(data, tb, pr, pos);
            SameStops(data, tb, pr, pos, next) &&
            forall e: nat :: pos < e < next && e <= |data| ==> !Stops(data, tb, pr, pos, e) && !Reaches(data, tb, pr, pos, e)
  {
    var next := Next(data, tb, pr, pos);
    forall e: nat | pos < e < next && e <= |data|
      ensures !Stops(data, tb, pr, pos, e) && !Reaches(data, tb, pr, pos, e)
    {
      assert !Stops(data, tb, pr, next, e) && !Reaches(data, tb, pr, next, e);
    }
  }

  /** Wherever the scan has stood before `pos`, the shift table has an entry. */
  ghost predicate InTableBelow(data: Word, tb: seq<int>, pr: Params, pos: nat)
    requires GoodParams(pr)
  {
    forall e: nat :: pr.m <= e < pos && e <= |data| && Reaches(data, tb, pr, pr.m, e) ==> HasEntry(data, tb, pr, e)
  }

  lemma InTableNext(data: Word, tb: seq<int>, pr: Params, pos: nat)
    requires GoodParams(pr) && pr.m <= pos <= |data| && InTableBelow(data, tb, pr, pos)
    requires SameStops(data, tb, pr, pr.m, pos) && HasEntry(data, tb, pr, pos)
    ensures InTableBelow(data, tb, pr, Next(data, tb, pr, pos))
  {
    SkipStops(data, tb, pr, pos);
  }

  /** The matches that end before `pos` are recorded, and no others. */
  ghost predicate RecordedBelow(hits: set<(Word, nat)>, ps: seq<Word>, data: Word, tb: seq<int>, pr: Params, pos: nat)
    requires GoodParams(pr)
  {
    forall p, e: nat :: (p, e) in hits <==> e < pos && Hit(ps, data, tb, pr, p, e)
  }

  lemma RecordStop(hits: set<(Word, nat)>, ps: seq<Word>, data: Word, tb: seq<int>, pr: Params, pos: nat, found: set<Word>)
    requires GoodParams(pr) && pr.m <= pos <= |data| && RecordedBelow(hits, ps, data, tb, pr, pos)
    requires SameStops(data, tb, pr, pr.m, pos) && Stops(data, tb, pr, pos, pos)
    requires forall p :: p in found <==> p in ps && IsSuffix(p, data[..pos])
    ensures RecordedBelow(hits + (set p | p in found :: (p, pos)), ps, data, tb, pr, pos + 1)
  {
    var hits' := hits + (set p | p in found :: (p, pos));
    var pos' := pos + 1;
    forall p: Word, e: nat ensures (p, e) in hits' <==> e < pos' && Hit(ps, data, tb, pr, p, e) {
      assert (p, e) in hits' <==> (p, e) in hits || (p in found && e == pos);
    }
  }

  lemma RecordSkip(hits: set<(Word, nat)>, ps: seq<Word>, data: Word, tb: seq<int>, pr: Params, pos: nat)
    requires GoodParams(pr) && pr.m <= pos <= |data| && RecordedBelow(hits, ps, data, tb, pr, pos)
    requires SameStops(data, tb, pr, pr.m, pos) && HasEntry(data, tb, pr, pos) && !Stops(data, tb, pr, pos, pos)
    ensures RecordedBelow(hits, ps, data, tb, pr, Next(data, tb, pr, pos))
  {
    SkipStops(data, tb, pr, pos);
  }

  /** Where the table has no entry the scan ends, and every match it stops at is recorded. */
  lemma RecordEnd(hits: set<(Word, nat)>, ps: seq<Word>, data: Word, tb: seq<int>, pr: Params, pos: nat)
    requires GoodParams(pr) && pr.m <= pos <= |data| && RecordedBelow(hits, ps, data, tb, pr, pos)
    requires SameStops(data, tb, pr, pr.m, pos) && !HasEntry(data, tb, pr, pos)
    ensures !InTable(data, tb, pr)
    ensures forall p, e: nat :: (p, e) in hits <==> Hit(ps, data, tb, pr, p, e)
  {
    assert Reaches(data, tb, pr, pos, pos);
    forall e: nat | pos <= e <= |data| ensures !Stops(data, tb, pr, pr.m, e) {
      assert !Stops(data, tb, pr, pos, e);
    }
  }

  /** `MatchPadroes1_1`: of the patterns listed for a block, those that `subData` ends with. */
  method MatchPadroes1_1(listed: seq<Word>, subData: Word) returns (found: set<Word>)
    ensures forall p :: p in found <==> p in listed && IsSuffix(p, subData)
  {
    found := {};
    for t := 0 to |listed|
      invariant forall p :: p in found <==> p in listed[..t] && IsSuffix(p, subData)
    {
      var str := listed[t];
      var matched := EndsWith(subData, str);
      assert listed[..t + 1] == listed[..t] + [str];
      if matched {
        found := found + {str};
      }
    }
    assert listed[..|listed|] == listed;
  }

  /** The scan loop: at `pos`, either check the patterns listed for the block or skip. The program reads
      the shift table unchecked; here the scan ends, not `ok`, where it would read past its end, with
      every match up to there recorded. `visited` are the places where it stands. */
  method ScanText(data: Word, tabelaHASH: seq<seq<Word>>, tbShift: seq<int>, pr: Params, ghost ps: seq<Word>)
    returns (hits: set<(Word, nat)>, ok: bool, ghost visited: seq<nat>)
    requires GoodParams(pr) && Bounded(tbShift, pr) && PatternTable(ps, tabelaHASH, pr)
    requires forall p :: p in ps ==> pr.m <= |p|
    requires forall b :: pr.hash(b) < |tabelaHASH|
    ensures ok <==> InTable(data, tbShift, pr)
    ensures forall p, e: nat :: (p, e) in hits <==> Hit(ps, data, tbShift, pr, p, e)
    ensures Walk(visited, data, tbShift, pr)
  {
    var pos: nat := pr.m;
    hits, visited := {}, [];
    while pos <= |data|
      invariant pr.m <= pos && Scanned(hits, visited, ps, data, tbShift, pr, pos)
    {
      var i := pr.hash(Block(data, pos, pr.B));
      if i >= |tbShift| {
        ScanBreaks(hits, visited, ps, data, tbShift, pr, pos);
        return hits, false, visited + [pos];
      }
      if tbShift[i] == 0 {
        var found := MatchPadroes1_1(tabelaHASH[i], data[..pos]);
        AllFound(data, tabelaHASH, pr, ps, pos, found);
        ScanStops(hits, visited, ps, data, tbShift, pr, pos, found);
        hits := hits + (set p | p in found :: (p, pos));
        visited := visited + [pos];
        pos := pos + 1;
      } else {
        ScanSkips(hits, visited, ps, data, tbShift, pr, pos);
        visited := visited + [pos];
        pos := pos + tbShift[i];
      }
    }
    ScanLeaves(hits, visited, ps, data, tbShift, pr, pos);
    ok := true;
  }

  /** The scan that stands at `pos` has been at `visited`, inside the table, and has recorded the matches. */
  ghost predicate Scanned(hits: set<(Word, nat)>, visited: seq<nat>, ps: seq<Word>, data: Word, tb: seq<int>, pr: Params,
                          pos: nat)
    requires GoodParams(pr) && pr.m <= pos
  {
    && PathTo(visited, data, tb, pr, pos)
    && SameStops(data, tb, pr, pr.m, pos) && InTableBelow(data, tb, pr, pos)
    && RecordedBelow(hits, ps, data, tb, pr, pos)
  }

  lemma ScanStops(hits: set<(Word, nat)>, visited: seq<nat>, ps: seq<Word>, data: Word, tb: seq<int>, pr: Params, pos: nat,
                  found: set<Word>)
    requires GoodParams(pr) && pr.m <= pos <= |data| && Scanned(hits, visited, ps, data, tb, pr, pos)
    requires HasEntry(data, tb, pr, pos) && tb[pr.hash(Block(data, pos, pr.B))] == 0
    requires forall p :: p in found <==> p in ps && IsSuffix(p, data[..pos])
    ensures Scanned(hits + (set p | p in found :: (p, pos)), visited + [pos], ps, data, tb, pr, pos + 1)
  {
    var next := pos + 1;
    assert PathTo(visited + [pos], data, tb, pr, next) by { PathNext(visited, data, tb, pr, pos, next); }
    assert InTableBelow(data, tb, pr, next) by { InTableNext(data, tb, pr, pos); }
    assert SameStops(data, tb, pr, pr.m, next) by { SkipStops(data, tb, pr, pos); }
    RecordStop(hits, ps, data, tb, pr, pos, found);
  }

  lemma ScanSkips(hits: set<(Word, nat)>, visited: seq<nat>, ps: seq<Word>, data: Word, tb: seq<int>, pr: Params, pos: nat)
    requires GoodParams(pr) && pr.m <= pos <= |data| && Scanned(hits, visited, ps, data, tb, pr, pos)
    requires HasEntry(data, tb, pr, pos) && tb[pr.hash(Block(data, pos, pr.B))] > 0
    ensures Scanned(hits, visited + [pos], ps, data, tb, pr, pos + tb[pr.hash(Block(data, pos, pr.B))])
  {
    var next := pos + tb[pr.hash(Block(data, pos, pr.B))];
    assert PathTo(visited + [pos], data, tb, pr, next) by { PathNext(visited, data, tb, pr, pos, next); }
    assert InTableBelow(data, tb, pr, next) by { InTableNext(data, tb, pr, pos); }
    assert SameStops(data, tb, pr, pr.m, next) by { SkipStops(data, tb, pr, pos); }
    RecordSkip(hits, ps, data, tb, pr, pos);
  }

  lemma ScanBreaks(hits: set<(Word, nat)>, visited: seq<nat>, ps: seq<Word>, data: Word, tb: seq<int>, pr: Params, pos: nat)
    requires GoodParams(pr) && pr.m <= pos <= |data| && Scanned(hits, visited, ps, data, tb, pr, pos)
    requires !HasEntry(data, tb, pr, pos)
    ensures !InTable(data, tb, pr) && Walk(visited + [pos], data, tb, pr)
    ensures forall p, e: nat :: (p, e) in hits <==> Hit(ps, data, tb, pr, p, e)
  {
    RecordEnd(hits, ps, data, tb, pr, pos);
    PathBreaks(visited, data, tb, pr, pos);
  }

  lemma ScanLeaves(hits: set<(Word, nat)>, visited: seq<nat>, ps: seq<Word>, data: Word, tb: seq<int>, pr: Params, pos: nat)
    requires GoodParams(pr) && pr.m <= pos && pos > |data| && Scanned(hits, visited, ps, data, tb, pr, pos)
    ensures InTable(data, tb, pr) && Walk(visited, data, tb, pr)
    ensures forall p, e: nat :: (p, e) in hits <==> Hit(ps, data, tb, pr, p, e)
  {
    PathLeaves(visited, data, tb, pr, pos);
  }

  /** The matches and the outcome of a scan, told from the places where it stands. */
  lemma ScanFromWalk(ps: seq<Word>, data: Word, tb: seq<int>, pr: Params, v: seq<nat>, p: Word, e: nat)
    requires GoodParams(pr) && Bounded(tb, pr) && Walk(v, data, tb, pr)
    ensures Hit(ps, data, tb, pr, p, e) <==> p in ps && e in v && ZeroAt(data, tb, pr, e) && IsSuffix(p, data[..e])
    ensures InTable(data, tb, pr) <==> forall q :: q in v ==> EntryAt(data, tb, pr, q)
  {
    if pr.m <= e <= |data| { WalkAt(v, data, tb, pr, e); }
    WalkInTable(v, data, tb, pr);
  }

  lemma AllFound(data: Word, tab: seq<seq<Word>>, pr: Params, ps: seq<Word>, pos: nat, found: set<Word>)
    requires 1 <= pr.B <= pos <= |data| && PatternTable(ps, tab, pr) && forall p :: p in ps ==> pr.B <= |p|
    requires pr.hash(Block(data, pos, pr.B)) < |tab|
    requires forall p :: p in found <==> p in tab[pr.hash(Block(data, pos, pr.B))] && IsSuffix(p, data[..pos])
    ensures forall p :: p in found <==> p in ps && IsSuffix(p, data[..pos])
  {
    forall p | p in ps && IsSuffix(p, data[..pos]) ensures p in found {
      SuffixIsListed(ps, tab, pr, p, data, pos);
    }
  }

  /** One window: where the block of the pattern is a prefix of the bucket's block, its end is kept. */
  method TryWindow(pdr: Word, blocoStr: Word, B: nat, q: nat, idxInicio: nat, idxFim: nat) returns (q': nat)
    requires 1 <= B && idxFim == idxInicio + B - 1 && idxFim < |pdr| && LastSeen(q, pdr, blocoStr, B, idxFim)
    ensures LastSeen(q', pdr, blocoStr, B, idxFim + 1)
  {
    var s := pdr[idxInicio..idxInicio + B];
    q' := if s <= blocoStr then idxFim + 1 else q;
    LastSeenNext(q, q', pdr, blocoStr, B, idxFim, s);
  }

  class WMCPUInspection {
    var padroes: seq<Word>
    var m: nat
    var nP: nat
    var M: nat
    const B: nat
    const hash: Word -> nat
    var vecpermu: seq<seq<Word>>
    var tabelaHASH: seq<seq<Word>>
    var tabelaidx: seq<seq<Word>>
    var tbShift: seq<int>

    constructor (B: nat, hash: Word -> nat)
      ensures this.B == B && this.hash == hash
    {
      this.B, this.hash := B, hash;
      padroes, m, nP, M := [], 0, 0, 0;
      vecpermu, tabelaHASH, tabelaidx, tbShift := [], [], [], [];
    }

    function P(): Params
      reads this
    {
      Params(B, m, hash)
    }

    /** The patterns are loaded and no shorter than a block. */
    ghost predicate Loaded()
      reads this
    {
      && nP == |padroes| > 0 && 1 <= B <= m && M == m * nP
      && (forall i :: 0 <= i < |padroes| ==> m <= |padroes[i]|)
      && (forall b :: hash(b) < M)
    }

    ghost predicate Valid()
      reads this
    {
      && Loaded()
      && |tabelaHASH| == M && PatternTable(padroes, tabelaHASH, P())
      && Cut() && IndexOK(padroes, vecpermu, tabelaidx, P())
      && ShiftTable(CStrs(padroes), tabelaidx, tbShift, P())
    }

    /** `TmhMenorPadrao`: the shortest pattern length. */
    method TmhMenorPadrao() returns (r: nat)
      requires |padroes| > 0
      ensures forall i :: 0 <= i < |padroes| ==> r <= |padroes[i]|
      ensures exists i :: 0 <= i < |padroes| && r == |padroes[i]|
    {
      r := |padroes[0]|;
      for i := 0 to |padroes|
        invariant forall k :: 0 <= k < i ==> r <= |padroes[k]|
        invariant exists k :: 0 <= k < |padroes| && r == |padroes[k]|
      {
        if |padroes[i]| < r { r := |padroes[i]|; }
      }
    }

    method BuildMatchingMachine1_1(ps: seq<Word>)
      requires |ps| > 0 && 1 <= B && forall i :: 0 <= i < |ps| ==> B <= |ps[i]|
      requires forall b, i :: 0 <= i < |ps| && (forall k :: 0 <= k < |ps| ==> |ps[i]| <= |ps[k]|) ==>
                 hash(b) < |ps[i]| * |ps|
      modifies this
      ensures Valid() && padroes == ps
      ensures m in (set p | p in ps :: |p|) && forall p :: p in ps ==> m <= |p|
    {
      padroes := ps;
      m := TmhMenorPadrao();
      nP := |padroes|;
      M := m * nP;
      LoadTables();
    }

    /** The three table loops, in order. */
    method LoadTables()
      requires Loaded()
      modifies this`vecpermu, this`tabelaHASH, this`tabelaidx, this`tbShift
      ensures Valid()
    {
      VecPermu1_1();
      TabelaHash();
      TabelaShift();
    }

    /** `PrecarregaTabelaHash`: list pattern `idxPadrao` under the hash of one of its blocks. */
    method PrecarregaTabelaHash(subStr: Word, idxPadrao: nat)
      requires idxPadrao < |padroes| && hash(subStr) < |tabelaHASH|
      modifies this`tabelaHASH
      ensures var h := hash(subStr);
              tabelaHASH == old(tabelaHASH)[h := AddOnce(old(tabelaHASH[h]), padroes[idxPadrao])]
    {
      var i := hash(subStr);
      if padroes[idxPadrao] !in tabelaHASH[i] {
        tabelaHASH := tabelaHASH[i := tabelaHASH[i] + [padroes[idxPadrao]]];
      }
    }

    /** The first `i` patterns are cut and listed. */
    ghost predicate Cutting(i: nat)
      reads this
    {
      && Loaded() && i <= |padroes|
      && |vecpermu| == nP && (forall k :: 0 <= k < i ==> vecpermu[k] == Windows(padroes[k], B))
      && (forall k :: i <= k < nP ==> vecpermu[k] == [])
      && |tabelaHASH| == M && ListsPairs(tabelaHASH, AllPairs(padroes[..i], P()))
    }

    /** `vecPermu1_1`: cut every pattern into blocks and load the pattern lists. */
    method VecPermu1_1()
      requires Loaded()
      modifies this`vecpermu, this`tabelaHASH
      ensures Loaded() && Cut() && |tabelaHASH| == M && PatternTable(padroes, tabelaHASH, P())
    {
      vecpermu := seq(nP, _ => []);
      tabelaHASH := seq(M, _ => []);
      for i := 0 to |padroes|
        invariant Cutting(i)
      {
        CutPattern(i);
      }
      assert padroes[..|padroes|] == padroes;
      PairsListed(padroes, tabelaHASH, P());
    }

    ghost predicate Cut()
      reads this
    {
      1 <= B && |vecpermu| == |padroes| &&
      forall k :: 0 <= k < |padroes| ==> B <= |padroes[k]| && vecpermu[k] == Windows(padroes[k], B)
    }

    /** One turn of the pattern loop. */
    method CutPattern(i: nat)
      requires Cutting(i) && i < |padroes|
      modifies this`vecpermu, this`tabelaHASH
      ensures Cutting(i + 1)
    {
      AllPairsSnoc(padroes, i, P());
      CutBlocksOf(i, AllPairs(padroes[..i], P()));
    }

    /** The block loop for one pattern. */
    method CutBlocksOf(i: nat, ghost base: set<(Word, nat)>)
      requires Loaded() && i < |padroes| && |vecpermu| == nP && vecpermu[i] == []
      requires |tabelaHASH| == M && ListsPairs(tabelaHASH, base)
      modifies this`vecpermu, this`tabelaHASH
      ensures vecpermu == old(vecpermu)[i := Windows(padroes[i], B)]
      ensures |tabelaHASH| == M
      ensures ListsPairs(tabelaHASH, base + Pairs(padroes[i], |padroes[i]| + 1, P()))
    {
      var strTemp := padroes[i];
      ghost var pr := P();
      ghost var loaded := base;
      var cut: seq<Word> := [];
      var idxInicio, idxFim := 0, B - 1;
      while idxFim < |strTemp|
        invariant 0 <= idxInicio && idxFim == idxInicio + B - 1 <= |strTemp|
        invariant cut == Windows(strTemp, B)[..idxInicio]
        invariant vecpermu == old(vecpermu)[i := cut]
        invariant loaded == base + Pairs(strTemp, idxInicio, pr)
        invariant |tabelaHASH| == M && ListsPairs(tabelaHASH, loaded)
      {
        var subStrPerm := strTemp[idxInicio..idxInicio + B];
        PairsSnoc(base, strTemp, idxInicio, pr);
        WindowsSnoc(strTemp, B, idxInicio);
        AddPair(tabelaHASH, loaded, strTemp, hash(subStrPerm));
        PrecarregaTabelaHash(subStrPerm, i);
        loaded := loaded + {(strTemp, hash(subStrPerm))};
        cut := cut + [subStrPerm];
        vecpermu := vecpermu[i := vecpermu[i] + [subStrPerm]];
        idxInicio, idxFim := NextWindow(idxInicio, idxFim);
      }
      PairsEnd(strTemp, idxInicio, pr);
      assert Windows(strTemp, B)[..idxInicio] == Windows(strTemp, B);
    }

    /** `TabelaHash`: index every block by its hash, then append the sentinel "*". */
    method TabelaHash()
      requires Loaded() && Cut()
      modifies this`tabelaidx
      ensures IndexOK(padroes, vecpermu, tabelaidx, P())
    {
      var vpSize := CountBlocks();
      tabelaidx := seq(vpSize, _ => []);
      for k := 0 to |vecpermu|
        invariant k > 0 ==> |tabelaidx| > 0
        invariant Indexed(tabelaidx, vpSize, Flatten(vecpermu[..k]), hash)
      {
        IndexPattern(k, vpSize);
      }
      assert vecpermu[..|vecpermu|] == vecpermu;
      SentinelIndex(padroes, vecpermu, tabelaidx, P());
      AppendSentinel();
    }

    /** The end of `TabelaHash`. */
    method AppendSentinel()
      requires |tabelaidx| > 0
      modifies this`tabelaidx
      ensures tabelaidx == WithSentinel(old(tabelaidx))
    {
      var sZ := |tabelaidx| - 1;
      if tabelaidx[sZ] == [] {
        assert tabelaidx[sZ] + [[42]] == [[42]];
        tabelaidx := tabelaidx[sZ := tabelaidx[sZ] + [[42]]];
      } else {
        tabelaidx := tabelaidx + [[]];
        assert tabelaidx[sZ + 1] + [[42]] == [[42]];
        tabelaidx := tabelaidx[sZ + 1 := tabelaidx[sZ + 1] + [[42]]];
      }
    }

    method CountBlocks() returns (vpSize: nat)
      ensures vpSize == |Flatten(vecpermu)|
    {
      vpSize := 0;
      for j := 0 to |vecpermu|
        invariant vpSize == |Flatten(vecpermu[..j])|
      {
        FlattenSnoc(vecpermu, j);
        vpSize := vpSize + |vecpermu[j]|;
      }
      assert vecpermu[..|vecpermu|] == vecpermu;
    }

    /** Index the blocks of one pattern. */
    method IndexPattern(k: nat, ghost n: nat)
      requires k < |vecpermu| && Indexed(tabelaidx, n, Flatten(vecpermu[..k]), hash)
      modifies this`tabelaidx
      ensures Indexed(tabelaidx, n, Flatten(vecpermu[..k + 1]), hash)
      ensures |tabelaidx| >= old(|tabelaidx|) && (vecpermu[k] != [] ==> |tabelaidx| > 0)
    {
      var len := |vecpermu[k]|;
      ghost var base := Flatten(vecpermu[..k]);
      FlattenSnoc(vecpermu, k);
      assert base + vecpermu[k][..0] == base;
      for i := 0 to len
        invariant Indexed(tabelaidx, n, base + vecpermu[k][..i], hash)
        invariant |tabelaidx| >= old(|tabelaidx|) && (i > 0 ==> |tabelaidx| > 0)
      {
        ghost var seen := base + vecpermu[k][..i];
        TakeSnoc(vecpermu[k], i);
        assert base + vecpermu[k][..i + 1] == seen + [vecpermu[k][i]];
        IndexNext(tabelaidx, n, seen, hash, vecpermu[k][i]);
        IndexBlock(vecpermu[k][i]);
      }
      assert vecpermu[k][..len] == vecpermu[k];
    }

    /** The body of the index loop. */
    method IndexBlock(str: Word)
      modifies this`tabelaidx
      ensures tabelaidx == IndexStep(old(tabelaidx), str, hash(str))
    {
      var h := hash(str);
      if h + 1 <= |tabelaidx| {
        if str !in tabelaidx[h] {
          tabelaidx := tabelaidx[h := tabelaidx[h] + [str]];
        }
      } else {
        ghost var idx := tabelaidx;
        tabelaidx := tabelaidx + seq(h + 1 - |tabelaidx|, _ => []);
        assert tabelaidx[h] + [str] == [str];
        tabelaidx := tabelaidx[h := tabelaidx[h] + [str]];
        assert tabelaidx == IndexStep(idx, str, h);
      }
    }

    /** One pattern's contribution to the candidate list of block `blocoStr`. */
    method PatternCandidate(pdr: Word, blocoStr: Word, min: seq<int>) returns (min': seq<int>)
      requires 1 <= B <= m
      ensures var q := LastEnd(pdr, blocoStr, B, |pdr|);
              min' == if q > 0 then min + [Max0(m - q)] else min
    {
      min' := min;
      var q: nat := 0;
      var idxInicio, idxFim := 0, B - 1;
      while idxFim < |pdr|
        invariant 0 <= idxInicio && idxFim == idxInicio + B - 1
        invariant LastSeen(q, pdr, blocoStr, B, idxFim)
        invariant min' == if idxFim == |pdr| && q > 0 then min + [Max0(m - q)] else min
      {
        q := TryWindow(pdr, blocoStr, B, q, idxInicio, idxFim);
        idxInicio, idxFim := NextWindow(idxInicio, idxFim);
        if idxFim == |pdr| && q > 0 {
          var candidate := Lowered(q);
          min' := min' + [candidate];
        }
      }
    }

    /** Lower `q` until the candidate `m - q` is not negative. */
    method Lowered(q0: nat) returns (candidate: int)
      ensures candidate == Max0(m - q0)
    {
      var q: int := q0;
      while m - q < 0
        invariant Max0(m - q) == Max0(m - q0)
        decreases q
      {
        q := q - 1;
      }
      candidate := m - q;
    }

    /** `tabelaShift`: the entry of a bucket is written once per block, so its last block wins. */
    method TabelaShift()
      requires 1 <= B <= m
      modifies this`tbShift
      ensures ShiftTable(CStrs(padroes), tabelaidx, tbShift, P())
      ensures |tbShift| == |tabelaidx| && forall h :: 0 <= h < |tbShift| ==>
                if tabelaidx[h] == [] then tbShift[h] == 0
                else IsShift(CStrs(padroes), tabelaidx[h][|tabelaidx[h]| - 1], P(), tbShift[h])
    {
      tbShift := seq(|tabelaidx|, _ => 0);
      for b1 := 0 to |tabelaidx|
        invariant |tbShift| == |tabelaidx|
        invariant forall h :: 0 <= h < b1 ==> tbShift[h] == Entry(CStrs(padroes), tabelaidx[h], P())
        invariant forall h :: b1 <= h < |tbShift| ==> tbShift[h] == 0
      {
        FillEntry(b1);
      }
      ShiftTableExact(CStrs(padroes), tabelaidx, tbShift, P());
    }

    /** Write the entry of bucket `b1`, once per block. */
    method FillEntry(b1: nat)
      requires 1 <= B <= m && b1 < |tbShift| == |tabelaidx| && tbShift[b1] == 0
      modifies this`tbShift
      ensures tbShift == old(tbShift)[b1 := Entry(CStrs(padroes), tabelaidx[b1], P())]
    {
      for b2 := 0 to |tabelaidx[b1]|
        invariant tbShift == old(tbShift)[b1 := Entry(CStrs(padroes), tabelaidx[b1][..b2], P())]
      {
        var shift := BlockShift(tabelaidx[b1][b2]);
        tbShift := tbShift[b1 := shift];
      }
      assert tabelaidx[b1][..|tabelaidx[b1]|] == tabelaidx[b1];
    }

    method BlockShift(blocoStr: Word) returns (shift: int)
      requires 1 <= B <= m
      ensures shift == ShiftOf(CStrs(padroes), blocoStr, P()) && IsShift(CStrs(padroes), blocoStr, P(), shift)
    {
      var min := CollectCandidates(blocoStr);
      if min == [] {
        shift := m - B + 1;
      } else {
        shift := MinOf(min);
      }
      ShiftExact(CStrs(padroes), blocoStr, P(), shift);
    }

    /** The pattern loop of `tabelaShift` for one block. */
    method CollectCandidates(blocoStr: Word) returns (min: seq<int>)
      requires 1 <= B <= m
      ensures min == Candidates(CStrs(padroes), blocoStr, P())
    {
      min := [];
      ghost var ps := CStrs(padroes);
      for p := 0 to |padroes|
        invariant min == Candidates(ps[..p], blocoStr, P())
      {
        TakeSnoc(ps, p);
        CandidatesSnoc(ps[..p], ps[p], blocoStr, P());
        min := PatternCandidate(CStr(padroes[p]), blocoStr, min);
      }
      assert ps[..|padroes|] == ps;
    }

    /** The scan of the loaded tables. `hits` records each match with the offset at which it ends. The
        scan stays inside the shift table on every text when the table covers all block hashes, as the
        built table does when blocks are single characters. */
    method ExcWuManberCore1_1(data: Word) returns (hits: set<(Word, nat)>, ok: bool, ghost visited: seq<nat>)
      requires Valid()
      ensures ok <==> InTable(data, tbShift, P())
      ensures Covers(tbShift, P()) ==> ok
      ensures B == 1 ==> Covers(tbShift, P())
      ensures forall p, e: nat :: (p, e) in hits <==> Hit(padroes, data, tbShift, P(), p, e)
      ensures Walk(visited, data, tbShift, P())
    {
      TableBounded(CStrs(padroes), tabelaidx, tbShift, P());
      if B == 1 { EveryHashCovered(padroes, vecpermu, m); }
      hits, ok, visited := ScanText(data, tabelaHASH, tbShift, Params(B, m, hash), padroes);
      CoversExactly(tbShift, P());
    }
  }

  /** Cut into single characters, the patterns have at least m * nP blocks. */
  lemma EveryHashCovered(ps: seq<Word>, v: seq<seq<Word>>, m: nat)
    requires |v| == |ps| && forall k :: 0 <= k < |ps| ==> 1 <= |ps[k]| && m <= |ps[k]| && v[k] == Windows(ps[k], 1)
    ensures m * |ps| <= |Flatten(v)|
  {
    FlattenLong(v, m);
  }

  lemma {:induction false} FlattenLong(v: seq<seq<Word>>, m: nat)
    requires forall k :: 0 <= k < |v| ==> m <= |v[k]|
    ensures m * |v| <= |Flatten(v)|
  {
    if v == [] {
    } else {
      FlattenLong(v[..|v| - 1], m);
      assert m * |v| == m * (|v| - 1) + m;
    }
  }
}
