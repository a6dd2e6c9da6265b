/** Wu-Manber with a shift table: what the tables hold, and when skipping loses nothing. */
module WuManber {
  import opened Strings

  /** Parameters of a built matcher: block size, shortest pattern, and the block hash. */
  datatype Params = Params(B: nat, m: nat, hash: Word -> nat)

  predicate GoodParams(pr: Params) {
    1 <= pr.B <= pr.m
  }

  /** The block of `w` that ends at offset `q`. */
  function Block(w: Word, q: nat, B: nat): Word
    requires B <= q <= |w|
  {
    w[q - B..q]
  }

  /** Move a window of equal size on by one character. */
  method NextWindow(idxInicio: int, idxFim: int) returns (inicio: int, fim: int)
    ensures inicio == idxInicio + 1 && fim == idxFim + 1
  {
    if idxInicio == idxFim {
      fim := idxFim + 1;
      inicio := fim;
    } else {
      inicio := idxInicio + 1;
      fim := idxFim + 1;
    }
  }

  ghost predicate HasBlock(w: Word, b: Word, B: nat) {
    exists q: nat :: B <= q <= |w| && Block(w, q, B) == b
  }

  ghost predicate HasHash(w: Word, h: nat, pr: Params) {
    exists q: nat :: pr.B <= q <= |w| && pr.hash(Block(w, q, pr.B)) == h
  }

  ghost predicate NoDup<T>(s: seq<T>) {
    forall i, j :: 0 <= i < j < |s| ==> s[i] != s[j]
  }

  lemma NoDupSnoc<T>(s: seq<T>, x: T)
    requires NoDup(s) && x !in s
    ensures NoDup(s + [x])
  {
  }

  // ----- skipping -----

  /** How far the scan moves from a block of this hash. */
  function Jump(tb: seq<int>, h: nat): int
    requires h < |tb|
  {
    if tb[h] > 0 then tb[h] else 1
  }

  /** The shift table has an entry for the block that ends at `pos`. The program reads the table
      unchecked; where there is none, nothing is promised of the scan from there on. */
  predicate HasEntry(text: Word, tb: seq<int>, pr: Params, pos: nat)
    requires pr.B <= pos <= |text|
  {
    pr.hash(Block(text, pos, pr.B)) < |tb|
  }

  /** Where the scan goes from `pos`. */
  function Next(text: Word, tb: seq<int>, pr: Params, pos: nat): (next: nat)
    requires pr.B <= pos <= |text| && HasEntry(text, tb, pr, pos)
    ensures next > pos
  {
    pos + Jump(tb, pr.hash(Block(text, pos, pr.B)))
  }

  /** The scan, standing at `pos`, later stops at `e` and checks patterns there. */
  predicate Stops(text: Word, tb: seq<int>, pr: Params, pos: nat, e: nat)
    requires pr.B <= pos && e <= |text|
    decreases e - pos
  {
    if pos > e || !HasEntry(text, tb, pr, pos) then false
    else if pos == e then tb[pr.hash(Block(text, pos, pr.B))] == 0
    else Stops(text, tb, pr, Next(text, tb, pr, pos), e)
  }

  /** The scan, standing at `pos`, later stands at `e`. */
  predicate Reaches(text: Word, tb: seq<int>, pr: Params, pos: nat, e: nat)
    requires pr.B <= pos && e <= |text|
    decreases e - pos
  {
    if pos >= e then pos == e
    else HasEntry(text, tb, pr, pos) && Reaches(text, tb, pr, Next(text, tb, pr, pos), e)
  }

  /** Wherever a scan that stands at `pos` comes, the shift table has an entry. */
  ghost predicate InTableFrom(text: Word, tb: seq<int>, pr: Params, pos: nat)
    requires pr.B <= pos
  {
    forall e: nat :: pos <= e <= |text| && Reaches(text, tb, pr, pos, e) ==> HasEntry(text, tb, pr, e)
  }

  /** The scan of the whole text never reads the shift table past its end. */
  ghost predicate InTable(text: Word, tb: seq<int>, pr: Params)
    requires GoodParams(pr)
  {
    InTableFrom(text, tb, pr, pr.m)
  }

  lemma InTableStep(text: Word, tb: seq<int>, pr: Params, pos: nat)
    requires pr.B <= pos <= |text| && InTableFrom(text, tb, pr, pos)
    ensures HasEntry(text, tb, pr, pos) && InTableFrom(text, tb, pr, Next(text, tb, pr, pos))
  {
    assert Reaches(text, tb, pr, pos, pos);
    var next := Next(text, tb, pr, pos);
    forall e: nat | next <= e <= |text| && Reaches(text, tb, pr, next, e) ensures HasEntry(text, tb, pr, e) {
      assert Reaches(text, tb, pr, pos, e);
    }
  }

  /** The shift table covers the hashes of all blocks. */
  ghost predicate Covers(tb: seq<int>, pr: Params) {
    forall b: Word :: |b| == pr.B ==> pr.hash(b) < |tb|
  }

  /** A text on which the scan stands first at the end of `b`. */
  lemma FirstBlock(b: Word, rest: Word, tb: seq<int>, pr: Params)
    requires GoodParams(pr) && |b| == pr.B
    ensures var text: Word := seq(pr.m - pr.B, _ => 0) + b + rest;
            |text| == pr.m + |rest| && Block(text, pr.m, pr.B) == b
  {
  }

  /** No text makes the scan read the shift table past its end exactly when the table covers the hashes
      of all blocks. */
  lemma CoversExactly(tb: seq<int>, pr: Params)
    requires GoodParams(pr)
    ensures (forall text :: InTable(text, tb, pr)) <==> Covers(tb, pr)
  {
    if Covers(tb, pr) {
      forall text ensures InTable(text, tb, pr) { CoveredInTable(text, tb, pr, pr.m); }
    }
    if forall text :: InTable(text, tb, pr) {
      forall b: Word | |b| == pr.B ensures pr.hash(b) < |tb| {
        var text: Word := seq(pr.m - pr.B, _ => 0) + b + [];
        FirstBlock(b, [], tb, pr);
        assert InTable(text, tb, pr);
        InTableStep(text, tb, pr, pr.m);
      }
    }
  }

  lemma CoveredInTable(text: Word, tb: seq<int>, pr: Params, pos: nat)
    requires pr.B <= pos && Covers(tb, pr)
    ensures InTableFrom(text, tb, pr, pos)
  {
    forall e: nat | pos <= e <= |text| ensures HasEntry(text, tb, pr, e) {
      assert |Block(text, e, pr.B)| == pr.B;
    }
  }

  // ----- the places where the scan stands, told from the table alone -----

  /** From `pos` the scan goes on to `next`: by the entry of the block there, or by one where that is 0. */
  ghost predicate Moves(text: Word, tb: seq<int>, pr: Params, pos: nat, next: int)
    requires pr.B <= pos <= |text|
  {
    var h := pr.hash(text[pos - pr.B..pos]);
    h < |tb| && next == pos + if tb[h] == 0 then 1 else tb[h]
  }

  /** `v` starts at the first place of the scan and goes on from each to the next. */
  ghost predicate Path(v: seq<nat>, text: Word, tb: seq<int>, pr: Params)
    requires GoodParams(pr)
  {
    && (v != [] ==> v[0] == pr.m)
    && (forall k :: 0 <= k < |v| ==> pr.m <= v[k] <= |text|)
    && (forall k :: 0 <= k < |v| - 1 ==> Moves(text, tb, pr, v[k], v[k + 1]))
  }

  /** ... and ends only where the scan leaves the text, or the table has no entry. */
  ghost predicate Walk(v: seq<nat>, text: Word, tb: seq<int>, pr: Params)
    requires GoodParams(pr)
  {
    && Path(v, text, tb, pr)
    && (v == [] ==> |text| < pr.m)
    && (v != [] ==> Leaves(text, tb, pr, v[|v| - 1]))
  }

  ghost predicate Leaves(text: Word, tb: seq<int>, pr: Params, pos: nat)
    requires pr.B <= pos <= |text|
  {
    forall next :: Moves(text, tb, pr, pos, next) ==> next > |text|
  }

  /** The scan that stands at `pos` is in the text at the places `v` and then at `pos`. */
  ghost predicate PathTo(v: seq<nat>, text: Word, tb: seq<int>, pr: Params, pos: nat)
    requires GoodParams(pr)
  {
    && Path(v, text, tb, pr)
    && if v == [] then pos == pr.m else Moves(text, tb, pr, v[|v| - 1], pos)
  }

  lemma PathNext(v: seq<nat>, text: Word, tb: seq<int>, pr: Params, pos: nat, next: nat)
    requires GoodParams(pr) && PathTo(v, text, tb, pr, pos) && pr.m <= pos <= |text| && Moves(text, tb, pr, pos, next)
    ensures PathTo(v + [pos], text, tb, pr, next)
  {
    var w := v + [pos];
    forall k | 0 <= k < |w| - 1 ensures Moves(text, tb, pr, w[k], w[k + 1]) {
      if k < |v| - 1 { assert w[k] == v[k] && w[k + 1] == v[k + 1]; }
    }
  }

  lemma PathLeaves(v: seq<nat>, text: Word, tb: seq<int>, pr: Params, pos: nat)
    requires GoodParams(pr) && PathTo(v, text, tb, pr, pos) && pos > |text|
    ensures Walk(v, text, tb, pr)
  {
  }

  lemma PathBreaks(v: seq<nat>, text: Word, tb: seq<int>, pr: Params, pos: nat)
    requires GoodParams(pr) && PathTo(v, text, tb, pr, pos) && pr.m <= pos <= |text| && !HasEntry(text, tb, pr, pos)
    ensures Walk(v + [pos], text, tb, pr)
  {
    var w := v + [pos];
    forall k | 0 <= k < |w| - 1 ensures Moves(text, tb, pr, w[k], w[k + 1]) {
      if k < |v| - 1 { assert w[k] == v[k] && w[k + 1] == v[k + 1]; }
    }
  }

  /** The block that ends at `e` has the entry 0. */
  ghost predicate ZeroAt(text: Word, tb: seq<int>, pr: Params, e: nat)
    requires pr.B <= e <= |text|
  {
    var h := pr.hash(text[e - pr.B..e]);
    h < |tb| && tb[h] == 0
  }

  lemma {:induction false} WalkFrom(v: seq<nat>, text: Word, tb: seq<int>, pr: Params, k: nat, e: nat)
    requires GoodParams(pr) && Bounded(tb, pr) && Walk(v, text, tb, pr) && k < |v| && e <= |text|
    ensures e in v[k..] <==> Reaches(text, tb, pr, v[k], e)
    ensures Stops(text, tb, pr, v[k], e) <==> e in v[k..] && ZeroAt(text, tb, pr, e)
    decreases |v| - k
  {
    var pos := v[k];
    assert v[k..] == [pos] + v[k + 1..];
    if k + 1 < |v| {
      assert Moves(text, tb, pr, pos, v[k + 1]);
      assert Next(text, tb, pr, pos) == v[k + 1];
      WalkFrom(v, text, tb, pr, k + 1, e);
    } else {
      assert v[k + 1..] == [];
      if HasEntry(text, tb, pr, pos) { assert Moves(text, tb, pr, pos, Next(text, tb, pr, pos)); }
    }
  }

  /** The block that ends at `e` has an entry. */
  ghost predicate EntryAt(text: Word, tb: seq<int>, pr: Params, e: nat) {
    pr.B <= e <= |text| && pr.hash(text[e - pr.B..e]) < |tb|
  }

  /** A walk is exactly where the scan stands; the scan checks patterns exactly at the places of the walk
      with entry 0. */
  lemma WalkAt(v: seq<nat>, text: Word, tb: seq<int>, pr: Params, e: nat)
    requires GoodParams(pr) && Bounded(tb, pr) && Walk(v, text, tb, pr) && pr.m <= e <= |text|
    ensures e in v <==> Reaches(text, tb, pr, pr.m, e)
    ensures Stops(text, tb, pr, pr.m, e) <==> e in v && ZeroAt(text, tb, pr, e)
  {
    assert v[0..] == v;
    WalkFrom(v, text, tb, pr, 0, e);
  }

  /** The scan stays inside the table exactly when every place of the walk has an entry. */
  lemma WalkInTable(v: seq<nat>, text: Word, tb: seq<int>, pr: Params)
    requires GoodParams(pr) && Bounded(tb, pr) && Walk(v, text, tb, pr)
    ensures InTable(text, tb, pr) <==> forall e :: e in v ==> EntryAt(text, tb, pr, e)
  {
    if InTable(text, tb, pr) {
      forall e | e in v ensures EntryAt(text, tb, pr, e) { EntryOnWalk(v, text, tb, pr, e); }
    }
    if forall e :: e in v ==> EntryAt(text, tb, pr, e) {
      forall e: nat | pr.m <= e <= |text| && Reaches(text, tb, pr, pr.m, e) ensures HasEntry(text, tb, pr, e) {
        assert e in v by { WalkAt(v, text, tb, pr, e); }
        assert EntryAt(text, tb, pr, e);
      }
    }
  }

  lemma EntryOnWalk(v: seq<nat>, text: Word, tb: seq<int>, pr: Params, e: nat)
    requires GoodParams(pr) && Bounded(tb, pr) && Walk(v, text, tb, pr) && InTable(text, tb, pr) && e in v
    ensures EntryAt(text, tb, pr, e)
  {
    assert Reaches(text, tb, pr, pr.m, e) by { WalkAt(v, text, tb, pr, e); }
    assert HasEntry(text, tb, pr, e);
  }

  /** From every offset at which a scan can enter `p`, it stops at the end of `p`. */
  predicate NeverSkips(p: Word, tb: seq<int>, pr: Params)
    requires GoodParams(pr) && pr.m <= |p|
  {
    forall q :: pr.B <= q <= pr.m ==> Stops(p, tb, pr, q, |p|)
  }

  lemma SliceOfSlice(text: Word, a: nat, n: nat, i: nat, j: nat)
    requires a + n <= |text| && i <= j <= n
    ensures text[a..a + n][i..j] == text[a + i..a + j]
  {
    var mid := text[a..a + n];
    assert forall k :: i <= k < j ==> mid[k] == text[a + k];
    assert forall k :: 0 <= k < j - i ==> mid[i..j][k] == mid[i + k];
  }

  /** Inside an occurrence of `p` the scan moves as it would inside `p` alone. */
  lemma {:induction false} StopsInside(text: Word, p: Word, a: nat, tb: seq<int>, pr: Params, q: nat)
    requires GoodParams(pr) && a + |p| <= |text| && text[a..a + |p|] == p && pr.B <= q
    ensures Stops(text, tb, pr, a + q, a + |p|) <==> Stops(p, tb, pr, q, |p|)
    decreases |p| - q
  {
    if q > |p| {
    } else {
      assert Block(text, a + q, pr.B) == Block(p, q, pr.B) by {
        SliceOfSlice(text, a, |p|, q - pr.B, q);
      }
      if q < |p| && HasEntry(p, tb, pr, q) {
        var next := Next(p, tb, pr, q);
        StopsInside(text, p, a, tb, pr, next);
        assert Next(text, tb, pr, a + q) == a + next;
      }
    }
  }

  /** No entry exceeds the distance a block outside every pattern may move. */
  predicate Bounded(tb: seq<int>, pr: Params) {
    forall h :: 0 <= h < |tb| ==> 0 <= tb[h] <= pr.m - pr.B + 1
  }

  /** A scan that has not yet entered the occurrence of `p` at `a` enters it at an offset in [B, m]. */
  lemma {:induction false} EntersOccurrence(text: Word, p: Word, a: nat, tb: seq<int>, pr: Params, pos: nat)
    requires GoodParams(pr) && Bounded(tb, pr) && pr.m <= |p| && NeverSkips(p, tb, pr)
    requires a + |p| <= |text| && text[a..a + |p|] == p
    requires pr.B <= pos <= a + pr.m && InTableFrom(text, tb, pr, pos)
    ensures Stops(text, tb, pr, pos, a + |p|)
    decreases a + |p| - pos
  {
    if pos >= a + pr.B {
      assert Stops(p, tb, pr, pos - a, |p|);
      StopsInside(text, p, a, tb, pr, pos - a);
    } else {
      InTableStep(text, tb, pr, pos);
      EntersOccurrence(text, p, a, tb, pr, Next(text, tb, pr, pos));
    }
  }

  /** In a text on which the scan stays inside the table, it stops at the end of every occurrence of a
      pattern it never skips inside the pattern alone. */
  lemma FoundInTable(text: Word, p: Word, tb: seq<int>, pr: Params, e: nat)
    requires GoodParams(pr) && Bounded(tb, pr) && pr.m <= |p| && NeverSkips(p, tb, pr)
    requires e <= |text| && IsSuffix(p, text[..e]) && InTable(text, tb, pr)
    ensures Stops(text, tb, pr, pr.m, e)
  {
    var a := e - |p|;
    assert text[a..a + |p|] == text[..e][a..];
    EntersOccurrence(text, p, a, tb, pr, pr.m);
  }

  /** The scan stops at the end of every occurrence of `p`, whatever the text. */
  ghost predicate FindsAll(p: Word, tb: seq<int>, pr: Params)
    requires GoodParams(pr)
  {
    forall text: Word, e: nat :: pr.m <= e <= |text| && IsSuffix(p, text[..e]) ==> Stops(text, tb, pr, pr.m, e)
  }

  /** No occurrence of `p` is missed in any text exactly when none is jumped over inside the pattern
      alone and the table covers the hashes of all blocks. */
  lemma SkippingExact(p: Word, tb: seq<int>, pr: Params)
    requires GoodParams(pr) && Bounded(tb, pr) && pr.m <= |p|
    ensures FindsAll(p, tb, pr) <==> NeverSkips(p, tb, pr) && Covers(tb, pr)
  {
    if NeverSkips(p, tb, pr) && Covers(tb, pr) {
      forall text: Word, e: nat | pr.m <= e <= |text| && IsSuffix(p, text[..e])
        ensures Stops(text, tb, pr, pr.m, e)
      {
        CoveredInTable(text, tb, pr, pr.m);
        FoundInTable(text, p, tb, pr, e);
      }
    }
    if FindsAll(p, tb, pr) {
      forall q | pr.B <= q <= pr.m ensures Stops(p, tb, pr, q, |p|) { FoundFrom(p, tb, pr, q); }
      forall b: Word | |b| == pr.B ensures pr.hash(b) < |tb| { BlockBefore(p, b, tb, pr); }
    }
  }

  /** Padding puts the window of the first stop at any place of the pattern. */
  lemma FoundFrom(p: Word, tb: seq<int>, pr: Params, q: nat)
    requires GoodParams(pr) && pr.m <= |p| && FindsAll(p, tb, pr) && pr.B <= q <= pr.m
    ensures Stops(p, tb, pr, q, |p|)
  {
    var pad: Word := seq(pr.m - q, _ => 0);
    var text := pad + p;
    assert IsSuffix(p, text[..|text|]) by { assert text[..|text|] == text && text[|pad|..] == p; }
    PaddedStops(p, pad, text, tb, pr, q);
  }

  lemma PaddedStops(p: Word, pad: Word, text: Word, tb: seq<int>, pr: Params, q: nat)
    requires GoodParams(pr) && text == pad + p && pr.B <= q && pr.m == |pad| + q && Stops(text, tb, pr, pr.m, |text|)
    ensures Stops(p, tb, pr, q, |p|)
  {
    assert text[|pad|..|pad| + |p|] == p;
    StopsInside(text, p, |pad|, tb, pr, q);
  }

  lemma BlockBefore(p: Word, b: Word, tb: seq<int>, pr: Params)
    requires GoodParams(pr) && pr.m <= |p| && FindsAll(p, tb, pr) && |b| == pr.B
    ensures pr.hash(b) < |tb|
  {
    var text: Word := seq(pr.m - pr.B, _ => 0) + b + p;
    FirstBlock(b, p, tb, pr);
    assert text[..|text|] == text && text[pr.m..] == p;
    assert Stops(text, tb, pr, pr.m, |text|);
  }

  /** The usual safety condition: no entry reaches past the end of a pattern. */
  predicate Safe(p: Word, tb: seq<int>, pr: Params) {
    forall q: nat :: pr.B <= q <= |p| ==>
      var h := pr.hash(Block(p, q, pr.B));
      h < |tb| && tb[h] <= |p| - q
  }

  lemma {:induction false} SafeStops(p: Word, tb: seq<int>, pr: Params, q: nat)
    requires GoodParams(pr) && Bounded(tb, pr) && Safe(p, tb, pr) && pr.B <= q <= |p|
    ensures Stops(p, tb, pr, q, |p|)
    decreases |p| - q
  {
    if q == |p| {
    } else {
      SafeStops(p, tb, pr, Next(p, tb, pr, q));
    }
  }

  // ----- the shift table -----

  /** The end of the last block of `p[..k]` that is a prefix of `b`; 0 when there is none. */
  function LastEnd(p: Word, b: Word, B: nat, k: nat): (q: nat)
    requires 1 <= B && k <= |p|
    ensures q == 0 || B <= q <= k
  {
    if k < B then 0
    else if Block(p, k, B) <= b then k
    else LastEnd(p, b, B, k - 1)
  }

  lemma {:induction false} LastEndMeaning(p: Word, b: Word, B: nat, k: nat)
    requires 1 <= B && k <= |p|
    ensures var q := LastEnd(p, b, B, k);
            (q > 0 ==> Block(p, q, B) <= b) &&
            forall i: nat :: B <= i <= k && Block(p, i, B) <= b ==> i <= q
  {
    if k >= B && !(Block(p, k, B) <= b) { LastEndMeaning(p, b, B, k - 1); }
    forall i: nat | B <= i <= k && Block(p, i, B) <= b ensures i <= LastEnd(p, b, B, k) {
      LastEndGreatest(p, b, B, k, i);
    }
  }

  lemma {:induction false} LastEndGreatest(p: Word, b: Word, B: nat, k: nat, i: nat)
    requires 1 <= B <= i <= k <= |p| && Block(p, i, B) <= b
    ensures i <= LastEnd(p, b, B, k)
  {
    if !(Block(p, k, B) <= b) { LastEndGreatest(p, b, B, k - 1, i); }
  }

  lemma LastEndStep(p: Word, b: Word, B: nat, k: nat, s: Word)
    requires 1 <= B <= k + 1 <= |p| && s == p[k + 1 - B..k + 1]
    ensures LastEnd(p, b, B, k + 1) == if s <= b then k + 1 else LastEnd(p, b, B, k)
  {
  }

  /** One block further: `q` moves to its end when it is found. */
  lemma LastSeenNext(q: nat, q': nat, p: Word, b: Word, B: nat, k: nat, s: Word)
    requires LastSeen(q, p, b, B, k) && B <= k + 1 <= |p| && s == p[k + 1 - B..k + 1]
    requires q' == if s <= b then k + 1 else q
    ensures LastSeen(q', p, b, B, k + 1)
  {
    LastEndStep(p, b, B, k, s);
  }

  /** `q` is the last such end at or before `k`; no block fits in less than B characters. */
  ghost predicate LastSeen(q: nat, p: Word, b: Word, B: nat, k: nat) {
    1 <= B && if k <= |p| then q == LastEnd(p, b, B, k) else k == B - 1 && q == 0
  }

  function Max0(x: int): nat {
    if x < 0 then 0 else x
  }

  /** The candidates collected over the patterns: one per pattern that holds the block. */
  function Candidates(ps: seq<Word>, b: Word, pr: Params): (min: seq<int>)
    requires GoodParams(pr)
  {
    if ps == [] then []
    else
      var init := Candidates(ps[..|ps| - 1], b, pr);
      var p := ps[|ps| - 1];
      var q := LastEnd(p, b, pr.B, |p|);
      if q > 0 then init + [Max0(pr.m - q)] else init
  }

  function MinOf(s: seq<int>): (r: int)
    requires s != []
    ensures r in s && forall x :: x in s ==> r <= x
  {
    if |s| == 1 then s[0]
    else
      var r := MinOf(s[..|s| - 1]);
      assert s == s[..|s| - 1] + [s[|s| - 1]];
      if s[|s| - 1] < r then s[|s| - 1] else r
  }

  /** The shift computed for one block. */
  function ShiftOf(ps: seq<Word>, b: Word, pr: Params): int
    requires GoodParams(pr)
  {
    var min := Candidates(ps, b, pr);
    if min == [] then pr.m - pr.B + 1 else MinOf(min)
  }

  /** Pattern `p` holds block `b`, last at an offset that gives the candidate `x`. */
  predicate Offers(p: Word, b: Word, pr: Params, x: int)
    requires GoodParams(pr)
  {
    var q := LastEnd(p, b, pr.B, |p|);
    q > 0 && x == Max0(pr.m - q)
  }

  lemma {:induction false} CandidateMeaning(ps: seq<Word>, b: Word, pr: Params, x: int)
    requires GoodParams(pr)
    ensures x in Candidates(ps, b, pr) <==> exists i :: 0 <= i < |ps| && Offers(ps[i], b, pr, x)
  {
    if ps == [] {
    } else {
      var init, p := ps[..|ps| - 1], ps[|ps| - 1];
      CandidateMeaning(init, b, pr, x);
      assert ps == init + [p];
      assert x in Candidates(ps, b, pr) <==> x in Candidates(init, b, pr) || Offers(p, b, pr, x);
      SomeOffers(init, p, b, pr, x);
    }
  }

  lemma SomeOffers(ps: seq<Word>, p: Word, b: Word, pr: Params, x: int)
    requires GoodParams(pr)
    ensures (exists i :: 0 <= i < |ps + [p]| && Offers((ps + [p])[i], b, pr, x)) <==>
              (exists i :: 0 <= i < |ps| && Offers(ps[i], b, pr, x)) || Offers(p, b, pr, x)
  {
    var all := ps + [p];
    if i :| 0 <= i < |all| && Offers(all[i], b, pr, x) { assert i < |ps| ==> all[i] == ps[i]; }
    if i :| 0 <= i < |ps| && Offers(ps[i], b, pr, x) { assert all[i] == ps[i]; }
    assert all[|ps|] == p;
  }

  /** The shift of a block is at most `m - B + 1`, and at most max(0, m - q) for every place q at
      which the block ends in a pattern. */
  lemma ShiftBound(ps: seq<Word>, b: Word, pr: Params)
    requires GoodParams(pr)
    ensures 0 <= ShiftOf(ps, b, pr) <= pr.m - pr.B + 1
    ensures forall i, q: nat :: 0 <= i < |ps| && pr.B <= q <= |ps[i]| && Block(ps[i], q, pr.B) == b ==>
              ShiftOf(ps, b, pr) <= Max0(pr.m - q)
  {
    var min := Candidates(ps, b, pr);
    if min != [] {
      CandidateMeaning(ps, b, pr, MinOf(min));
    }
    forall i, q: nat | 0 <= i < |ps| && pr.B <= q <= |ps[i]| && Block(ps[i], q, pr.B) == b
      ensures ShiftOf(ps, b, pr) <= Max0(pr.m - q)
    {
      LastEndMeaning(ps[i], b, pr.B, |ps[i]|);
      var x := Max0(pr.m - LastEnd(ps[i], b, pr.B, |ps[i]|));
      CandidateMeaning(ps, b, pr, x);
      assert Offers(ps[i], b, pr, x);
    }
  }

  /** The last block of `p` that is a prefix of `b` ends at `q`. */
  ghost predicate LastPrefix(p: Word, b: Word, B: nat, q: nat) {
    B <= q <= |p| && PrefixAt(p, b, B, q) && forall i: nat :: q < i <= |p| ==> !PrefixAt(p, b, B, i)
  }

  ghost predicate PrefixAt(p: Word, b: Word, B: nat, q: nat)
    requires B <= q <= |p|
  {
    p[q - B..q] <= b
  }

  /** Some pattern has a block that is a prefix of `b`. */
  ghost predicate AnyPrefix(ps: seq<Word>, b: Word, B: nat) {
    exists i, q: nat :: 0 <= i < |ps| && LastPrefix(ps[i], b, B, q)
  }

  /** The shift of `b`, told from the patterns: m - B + 1 if none has the block, else the least distance,
      not below 0, from the end of a pattern's last such block to m. */
  ghost predicate IsShift(ps: seq<Word>, b: Word, pr: Params, x: int) {
    if !AnyPrefix(ps, b, pr.B) then x == pr.m - pr.B + 1
    else
      && (exists i, q: nat :: 0 <= i < |ps| && LastPrefix(ps[i], b, pr.B, q) && x == if q < pr.m then pr.m - q else 0)
      && (forall i, q: nat :: 0 <= i < |ps| && LastPrefix(ps[i], b, pr.B, q) ==> x <= if q < pr.m then pr.m - q else 0)
  }

  lemma LastPrefixIs(p: Word, b: Word, B: nat, q: nat)
    requires 1 <= B
    ensures LastPrefix(p, b, B, q) <==> q > 0 && q == LastEnd(p, b, B, |p|)
  {
    LastEndMeaning(p, b, B, |p|);
    var last := LastEnd(p, b, B, |p|);
    assert last > 0 ==> PrefixAt(p, b, B, last);
    if LastPrefix(p, b, B, q) { assert Block(p, q, B) <= b; }
    forall i: nat | last < i <= |p| && B <= i ensures !PrefixAt(p, b, B, i) {
      assert Block(p, i, B) == p[i - B..i];
    }
  }

  /** The shift computed for a block is exactly that. */
  lemma ShiftExact(ps: seq<Word>, b: Word, pr: Params, x: int)
    requires GoodParams(pr)
    ensures IsShift(ps, b, pr, x) <==> x == ShiftOf(ps, b, pr)
  {
    var min := Candidates(ps, b, pr);
    forall i, q: nat | 0 <= i < |ps| && LastPrefix(ps[i], b, pr.B, q) ensures (if q < pr.m then pr.m - q else 0) in min {
      LastPrefixIs(ps[i], b, pr.B, q);
      CandidateMeaning(ps, b, pr, Max0(pr.m - q));
      assert Offers(ps[i], b, pr, Max0(pr.m - q));
    }
    if min != [] {
      CandidateMeaning(ps, b, pr, MinOf(min));
      var i :| 0 <= i < |ps| && Offers(ps[i], b, pr, MinOf(min));
      LastPrefixIs(ps[i], b, pr.B, LastEnd(ps[i], b, pr.B, |ps[i]|));
    }
  }

  /** The entry of a bucket: the shift of its last block. */
  function Entry(ps: seq<Word>, bucket: seq<Word>, pr: Params): int
    requires GoodParams(pr)
  {
    if bucket == [] then 0 else ShiftOf(ps, bucket[|bucket| - 1], pr)
  }

  /** What `tabelaShift` leaves: each bucket's entry is the shift of its last block. */
  ghost predicate ShiftTable(ps: seq<Word>, idx: seq<seq<Word>>, tb: seq<int>, pr: Params)
    requires GoodParams(pr)
  {
    |tb| == |idx| && forall h :: 0 <= h < |tb| ==> tb[h] == Entry(ps, idx[h], pr)
  }

  /** What `tabelaShift` leaves, entry by entry: 0 for an empty bucket, else the shift of its last block. */
  lemma ShiftTableExact(ps: seq<Word>, idx: seq<seq<Word>>, tb: seq<int>, pr: Params)
    requires GoodParams(pr)
    ensures ShiftTable(ps, idx, tb, pr) <==>
              |tb| == |idx| && forall h :: 0 <= h < |tb| ==>
                if idx[h] == [] then tb[h] == 0 else IsShift(ps, idx[h][|idx[h]| - 1], pr, tb[h])
  {
    if |tb| == |idx| {
      forall h | 0 <= h < |tb| && idx[h] != []
        ensures IsShift(ps, idx[h][|idx[h]| - 1], pr, tb[h]) <==> tb[h] == ShiftOf(ps, idx[h][|idx[h]| - 1], pr)
      {
        ShiftExact(ps, idx[h][|idx[h]| - 1], pr, tb[h]);
      }
    }
  }

  /** What `TabelaHash` leaves: every pattern block is in the bucket of its hash, once, and the
      last bucket holds nothing but the sentinel "*". */
  ghost predicate IndexTable(ps: seq<Word>, idx: seq<seq<Word>>, pr: Params) {
    && |idx| > 0 && idx[|idx| - 1] == [[42]]
    && (forall h: nat :: h < |idx| - 1 ==> Bucket(ps, idx[h], h, pr))
    && (forall i, q: nat :: 0 <= i < |ps| && pr.B <= q <= |ps[i]| ==>
          pr.hash(Block(ps[i], q, pr.B)) < |idx| - 1)
  }

  /** `bucket` lists without duplicates exactly the pattern blocks hashing to `h`. */
  ghost predicate Bucket(ps: seq<Word>, bucket: seq<Word>, h: nat, pr: Params) {
    && NoDup(bucket)
    && forall b :: b in bucket <==>
         pr.hash(b) == h && exists i :: 0 <= i < |ps| && HasBlock(ps[i], b, pr.B)
  }

  /** In `seen`, `x` occurs before `y` first does. */
  ghost predicate Earlier(seen: seq<Word>, x: Word, y: Word) {
    exists k :: 0 <= k < |seen| && seen[k] == x && y !in seen[..k + 1]
  }

  /** The blocks of a bucket stand in the order in which they first occur in `seen`. */
  ghost predicate InOrder(bucket: seq<Word>, seen: seq<Word>) {
    forall i, j :: 0 <= i < j < |bucket| ==> Earlier(seen, bucket[i], bucket[j])
  }

  /** So do those of every bucket but the sentinel's. */
  ghost predicate IndexOrder(idx: seq<seq<Word>>, seen: seq<Word>) {
    forall h :: 0 <= h < |idx| - 1 ==> InOrder(idx[h], seen)
  }

  /** In every bucket the block inserted last has the least shift. */
  predicate LastIsLeast(ps: seq<Word>, idx: seq<seq<Word>>, pr: Params)
    requires GoodParams(pr)
  {
    forall h :: 0 <= h < |idx| && idx[h] != [] ==>
      forall b :: b in idx[h] ==> ShiftOf(ps, idx[h][|idx[h]| - 1], pr) <= ShiftOf(ps, b, pr)
  }

  /** Distinct pattern blocks do not collide. */
  ghost predicate NoCollision(ps: seq<Word>, pr: Params) {
    forall i, j, b, c ::
      (0 <= i < |ps| && 0 <= j < |ps| && HasBlock(ps[i], b, pr.B) && HasBlock(ps[j], c, pr.B) &&
       pr.hash(b) == pr.hash(c)) ==> b == c
  }

  /** Without collisions every bucket holds one block, trivially the least. */
  lemma NoCollisionLastIsLeast(ps: seq<Word>, idx: seq<seq<Word>>, pr: Params)
    requires GoodParams(pr) && IndexTable(ps, idx, pr) && NoCollision(ps, pr)
    ensures LastIsLeast(ps, idx, pr)
  {
    forall h: nat, b | h < |idx| && b in idx[h]
      ensures ShiftOf(ps, idx[h][|idx[h]| - 1], pr) <= ShiftOf(ps, b, pr)
    {
      var last := idx[h][|idx[h]| - 1];
      assert b == last by { OneInBucket(ps, idx, pr, h, b); }
    }
  }

  lemma OneInBucket(ps: seq<Word>, idx: seq<seq<Word>>, pr: Params, h: nat, b: Word)
    requires IndexTable(ps, idx, pr) && NoCollision(ps, pr) && h < |idx| && b in idx[h]
    ensures b == idx[h][|idx[h]| - 1]
  {
    if h < |idx| - 1 { OneBlock(ps, idx[h], h, pr, b, idx[h][|idx[h]| - 1]); }
  }

  lemma OneBlock(ps: seq<Word>, bucket: seq<Word>, h: nat, pr: Params, b: Word, c: Word)
    requires Bucket(ps, bucket, h, pr) && NoCollision(ps, pr) && b in bucket && c in bucket
    ensures b == c
  {
    var i :| 0 <= i < |ps| && HasBlock(ps[i], b, pr.B);
    var j :| 0 <= j < |ps| && HasBlock(ps[j], c, pr.B);
  }

  lemma TableBounded(ps: seq<Word>, idx: seq<seq<Word>>, tb: seq<int>, pr: Params)
    requires GoodParams(pr) && ShiftTable(ps, idx, tb, pr)
    ensures Bounded(tb, pr)
  {
    forall h | 0 <= h < |tb| ensures 0 <= tb[h] <= pr.m - pr.B + 1 {
      if idx[h] != [] { ShiftBound(ps, idx[h][|idx[h]| - 1], pr); }
    }
  }

  /** When each bucket's last block has the least shift, the entry of a block is at most max(0, m - q)
      wherever the block ends at q in a pattern; so no entry reaches past the end of a pattern. */
  lemma TableSafe(ps: seq<Word>, idx: seq<seq<Word>>, tb: seq<int>, pr: Params, i: nat)
    requires GoodParams(pr) && IndexTable(ps, idx, pr) && ShiftTable(ps, idx, tb, pr)
    requires LastIsLeast(ps, idx, pr) && i < |ps| && pr.m <= |ps[i]|
    ensures forall q: nat :: pr.B <= q <= |ps[i]| ==>
              var h := pr.hash(Block(ps[i], q, pr.B)); h < |tb| && tb[h] <= Max0(pr.m - q)
    ensures Safe(ps[i], tb, pr) && NeverSkips(ps[i], tb, pr)
  {
    var p := ps[i];
    forall q: nat | pr.B <= q <= |p|
      ensures var h := pr.hash(Block(p, q, pr.B)); h < |tb| && tb[h] <= Max0(pr.m - q)
    {
      EntryBound(ps, idx, tb, pr, i, q);
    }
    TableBounded(ps, idx, tb, pr);
    forall q | pr.B <= q <= pr.m ensures Stops(p, tb, pr, q, |p|) { SafeStops(p, tb, pr, q); }
  }

  lemma EntryBound(ps: seq<Word>, idx: seq<seq<Word>>, tb: seq<int>, pr: Params, i: nat, q: nat)
    requires GoodParams(pr) && IndexTable(ps, idx, pr) && ShiftTable(ps, idx, tb, pr)
    requires LastIsLeast(ps, idx, pr) && i < |ps| && pr.B <= q <= |ps[i]|
    ensures var h := pr.hash(Block(ps[i], q, pr.B)); h < |tb| && tb[h] <= Max0(pr.m - q)
  {
    var b := Block(ps[i], q, pr.B);
    var h := pr.hash(b);
    assert HasBlock(ps[i], b, pr.B);
    assert Bucket(ps, idx[h], h, pr) && b in idx[h];
    ShiftBound(ps, b, pr);
  }

  lemma BlocksOfPair(w: Word, x: Chr, y: Chr, b: Word)
    requires w == [x, y]
    ensures HasBlock(w, b, 1) <==> b == [x] || b == [y]
  {
    assert Block(w, 1, 1) == [x] && Block(w, 2, 1) == [y];
  }

  /** The rules "ab", "ha" and "cc": m = 2, M = 6, and blocks of one character, hashed to their code
      modulo 6, so that 'b' and 'h' collide. */
  ghost predicate Colliding(ps: seq<Word>, pr: Params, idx: seq<seq<Word>>) {
    && ps == [[97, 98], [104, 97], [99, 99]]
    && pr.B == 1 && pr.m == 2 && (forall c: Chr :: pr.hash([c]) == c % 6)
    && idx == [[], [[97]], [[98], [104]], [[99]], [], [[42]]]
  }

  lemma CollidingIndex(ps: seq<Word>, pr: Params, idx: seq<seq<Word>>)
    requires Colliding(ps, pr, idx)
    ensures IndexTable(ps, idx, pr)
  {
    forall h: nat | h < |idx| - 1 ensures Bucket(ps, idx[h], h, pr) { CollidingBucket(ps, pr, idx, h); }
    CollidingCovered(ps, pr, idx);
  }

  /** The index lists the blocks in the order in which they are cut from the rules. */
  lemma CollidingOrder(ps: seq<Word>, pr: Params, idx: seq<seq<Word>>)
    requires Colliding(ps, pr, idx)
    ensures IndexOrder(idx, [[97], [98], [104], [97], [99], [99]])
  {
    var seen: seq<Word> := [[97], [98], [104], [97], [99], [99]];
    assert Earlier(seen, [98], [104]) by {
      assert seen[1] == [98] && seen[..2] == [[97], [98]];
    }
    forall h | 0 <= h < |idx| - 1 ensures InOrder(idx[h], seen) {
      if h == 2 { assert idx[2] == [[98], [104]]; }
    }
  }

  lemma CollidingCovered(ps: seq<Word>, pr: Params, idx: seq<seq<Word>>)
    requires Colliding(ps, pr, idx)
    ensures forall i, q: nat :: 0 <= i < |ps| && pr.B <= q <= |ps[i]| ==> pr.hash(Block(ps[i], q, pr.B)) < |idx| - 1
  {
    forall i, q: nat | 0 <= i < |ps| && pr.B <= q <= |ps[i]| ensures pr.hash(Block(ps[i], q, pr.B)) < |idx| - 1 {
      SmallHash(ps[i], q, pr);
    }
  }

  lemma SmallHash(p: Word, q: nat, pr: Params)
    requires |p| == 2 && 1 <= q <= 2 && pr.B == 1 && forall c: Chr :: pr.hash([c]) == c % 6
    requires forall k :: 0 <= k < 2 ==> 97 <= p[k] < 100 || p[k] == 104
    ensures pr.hash(Block(p, q, pr.B)) < 5
  {
    var c := p[q - 1];
    assert Block(p, q, 1) == [c];
    assert c == 97 || c == 98 || c == 99 || c == 104;
  }

  lemma CollidingBucket(ps: seq<Word>, pr: Params, idx: seq<seq<Word>>, h: nat)
    requires Colliding(ps, pr, idx) && h < 5
    ensures Bucket(ps, idx[h], h, pr)
  {
    forall b: Word ensures b in idx[h] <==> pr.hash(b) == h && exists i :: 0 <= i < |ps| && HasBlock(ps[i], b, pr.B) {
      CollidingBlocks(ps, pr, idx, b);
      CollidingHash(ps, pr, idx, h, b);
    }
    assert NoDup(idx[h]) by {
      assert h == 2 ==> idx[h][0] == [98] && idx[h][1] == [104] && [98][0] != [104][0];
    }
  }

  lemma CollidingHash(ps: seq<Word>, pr: Params, idx: seq<seq<Word>>, h: nat, b: Word)
    requires Colliding(ps, pr, idx) && h < 5
    ensures b in idx[h] <==> (b == [97] || b == [98] || b == [104] || b == [99]) && pr.hash(b) == h
  {
    assert pr.hash([97]) == 1 && pr.hash([98]) == 2 && pr.hash([104]) == 2 && pr.hash([99]) == 3;
  }

  lemma CollidingBlocks(ps: seq<Word>, pr: Params, idx: seq<seq<Word>>, b: Word)
    requires Colliding(ps, pr, idx)
    ensures (exists i :: 0 <= i < |ps| && HasBlock(ps[i], b, pr.B)) <==> b == [97] || b == [98] || b == [104] || b == [99]
  {
    assert HasBlock(ps[0], b, pr.B) <==> b == [97] || b == [98] by { BlocksOfPair(ps[0], 97, 98, b); }
    assert HasBlock(ps[1], b, pr.B) <==> b == [104] || b == [97] by { BlocksOfPair(ps[1], 104, 97, b); }
    assert HasBlock(ps[2], b, pr.B) <==> b == [99] by { BlocksOfPair(ps[2], 99, 99, b); }
  }

  /** The last block 'h' of the bucket ends in a pattern only at offset 1. */
  lemma CollidingShift(ps: seq<Word>, pr: Params, idx: seq<seq<Word>>)
    requires Colliding(ps, pr, idx)
    ensures ShiftOf(ps, [104], pr) == 1
  {
    var b: Word := [104];
    forall p: Word | |p| == 2 ensures LastEnd(p, b, 1, 2) == if p[1] == 104 then 2 else if p[0] == 104 then 1 else 0 {
      LastEndOfPair(p, b);
    }
    CandidatesSnoc([], ps[0], b, pr);
    CandidatesSnoc([ps[0]], ps[1], b, pr);
    CandidatesSnoc([ps[0], ps[1]], ps[2], b, pr);
    assert [] + [ps[0]] == [ps[0]] && [ps[0]] + [ps[1]] == [ps[0], ps[1]] && [ps[0], ps[1]] + [ps[2]] == ps;
    assert Candidates(ps, b, pr) == [1];
  }

  lemma LastEndOfPair(p: Word, b: Word)
    requires |p| == 2 && |b| == 1
    ensures LastEnd(p, b, 1, 2) == if p[1] == b[0] then 2 else if p[0] == b[0] then 1 else 0
  {
    assert Block(p, 1, 1) == [p[0]] && Block(p, 2, 1) == [p[1]];
    LastEndStep(p, b, 1, 1, [p[1]]);
    LastEndStep(p, b, 1, 0, [p[0]]);
  }

  lemma CandidatesSnoc(ps: seq<Word>, p: Word, b: Word, pr: Params)
    requires GoodParams(pr)
    ensures var q := LastEnd(p, b, pr.B, |p|);
            Candidates(ps + [p], b, pr) == Candidates(ps, b, pr) + if q > 0 then [Max0(pr.m - q)] else []
  {
    assert (ps + [p])[..|ps|] == ps;
  }

  /** The bucket's last block wins, and the scan of the text "ab" moves past the only place where "ab"
      ends. */
  lemma CollisionMisses(ps: seq<Word>, pr: Params, idx: seq<seq<Word>>, tb: seq<int>)
    requires Colliding(ps, pr, idx) && ShiftTable(ps, idx, tb, pr)
    ensures IndexTable(ps, idx, pr) && IsSuffix(ps[0], ps[0][..2]) && !Stops(ps[0], tb, pr, pr.m, 2) && !FindsAll(ps[0], tb, pr)
  {
    CollidingIndex(ps, pr, idx);
    assert tb[2] == 1 by { CollidingShift(ps, pr, idx); }
    ShiftedOver(ps[0], tb, pr);
  }

  lemma ShiftedOver(p: Word, tb: seq<int>, pr: Params)
    requires GoodParams(pr) && pr.B == 1 && pr.m == |p| == 2
    requires var h := pr.hash([p[1]]); h < |tb| && tb[h] == 1
    ensures IsSuffix(p, p[..2]) && !Stops(p, tb, pr, 2, 2) && !FindsAll(p, tb, pr)
  {
    assert p[..2] == p && Block(p, 2, 1) == [p[1]];
  }
}
