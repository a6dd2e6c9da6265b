/** The queue of the breadth-first search: in which order, and how often, states are dequeued. */
module SearchQueue {
  import opened Strings
  import opened TrieSpec
  import opened Automaton
  import opened TrieGrowth

  // ----- the loop bound -----

  /** No NUL inside a word, save after the character that starts the first non-empty word: no node
      numbered 2 or more has a child on NUL. */
  predicate NulClear(ws: seq<Word>) {
    forall i, j :: 0 <= i < |ws| && 0 < j < |ws[i]| && ws[i][j] == 0 ==> j == 1 && ws[i][0] == FirstChar(ws)
  }

  /** The last character of a state's word. */
  function LastChar(tr: Trie, e: nat): Chr
    requires e < |tr.word| && tr.word[e] != []
  {
    tr.word[e][|tr.word[e]| - 1]
  }

  /** `e` hangs on NUL from a node numbered 2 or more. */
  ghost predicate Exposed(tr: Trie, e: nat)
    requires 0 < e < |tr.word| == |tr.parent|
  {
    Hangs(tr, e) && tr.parent[e] >= 2 && LastChar(tr, e) == 0
  }

  lemma ExposedNul(ws: seq<Word>, tr: Trie, e: nat)
    requires Shape(tr) && Spells(ws, tr) && Numbered(ws, tr) && 0 < e < |tr.word| && Exposed(tr, e)
    ensures !NulClear(ws)
  {
    var p, u := tr.parent[e], tr.word[tr.parent[e]];
    assert InTrie(ws, tr.word[e]) && Hangs(tr, p);
    var i :| 0 <= i < |ws| && tr.word[e] <= ws[i];
    assert ws[i][|u|] == 0 && u == ws[i][..|u|] && u != tr.word[1];
  }

  lemma NulClearMeaning(ws: seq<Word>, tr: Trie)
    requires Shape(tr) && Spells(ws, tr) && Numbered(ws, tr)
    ensures NulClear(ws) <==> forall e: nat :: 0 < e < |tr.word| ==> !Exposed(tr, e)
  {
    forall e: nat | 0 < e < |tr.word| && Exposed(tr, e) ensures !NulClear(ws) { ExposedNul(ws, tr, e); }
    if forall e: nat :: 0 < e < |tr.word| ==> !Exposed(tr, e) {
      forall i, j | 0 <= i < |ws| && 0 < j < |ws[i]| && ws[i][j] == 0 ensures j == 1 && ws[i][0] == FirstChar(ws) {
        var u := ws[i][..j + 1];
        assert u <= ws[i] && InTrie(ws, u);
        var e :| 0 <= e < |tr.word| && tr.word[e] == u;
        assert Hangs(tr, e) && !Exposed(tr, e) && u[..j] == ws[i][..j];
        assert tr.parent[e] == 1;
      }
    }
  }

  /** An entry holds a state exactly where that state hangs. */
  lemma EntryIs(tr: Trie, g: seq<int>, s: nat, c: Chr, e: nat)
    requires GotoOK(tr, g, 0) && s < |tr.word| && 0 < e < |tr.word|
    ensures 0 <= Cell(s, c) < |g|
    ensures g[Cell(s, c)] == e <==> Hangs(tr, e) && tr.parent[e] == s && LastChar(tr, e) == c
  {
    assert Sound(tr, g, s, c, 0) && Hangs(tr, e) && Linked(tr, g, e);
    if g[Cell(s, c)] == e {
      var u := tr.word[s] + [c];
      assert u[..|u| - 1] == tr.word[s];
    }
  }

  /** At `ch == MAXC` the loop reads the first entry of the next row. Every such entry is blank exactly
      when the word list is clear of NULs. */
  lemma OverrunExact(ws: seq<Word>, tr: Trie, g: seq<int>)
    requires GotoOK(tr, g, 0) && Spells(ws, tr) && Numbered(ws, tr) && BlankFrom(g, |tr.word|)
    requires Cell(|tr.word| + 1, 0) <= |g|
    ensures NulClear(ws) <==> forall s: nat :: 0 < s < |tr.word| ==> OverrunBlank(g, s)
  {
    if NulClear(ws) {
      forall s: nat | 0 < s < |tr.word| ensures OverrunBlank(g, s) { ClearIsBlank(ws, tr, g, s); }
    } else {
      var e := ExposedState(ws, tr);
      ExposedRead(tr, g, e, tr.parent[e] - 1);
    }
  }

  lemma ClearIsBlank(ws: seq<Word>, tr: Trie, g: seq<int>, s: nat)
    requires GotoOK(tr, g, 0) && Spells(ws, tr) && Numbered(ws, tr) && BlankFrom(g, |tr.word|)
    requires Cell(|tr.word| + 1, 0) <= |g| && NulClear(ws) && 0 < s < |tr.word|
    ensures OverrunBlank(g, s)
  {
    forall e: nat | 0 < e < |tr.word| ensures !Exposed(tr, e) {
      if Exposed(tr, e) { ExposedNul(ws, tr, e); }
    }
    OverrunOf(tr, g, s);
  }

  lemma ExposedState(ws: seq<Word>, tr: Trie) returns (e: nat)
    requires Shape(tr) && Spells(ws, tr) && Numbered(ws, tr) && !NulClear(ws)
    ensures 0 < e < |tr.word| && Exposed(tr, e)
  {
    NulClearMeaning(ws, tr);
    e :| 0 < e < |tr.word| && Exposed(tr, e);
  }

  lemma ExposedRead(tr: Trie, g: seq<int>, e: nat, s: nat)
    requires GotoOK(tr, g, 0) && BlankFrom(g, |tr.word|) && Cell(|tr.word| + 1, 0) <= |g|
    requires 0 < e < |tr.word| && Exposed(tr, e) && s == tr.parent[e] - 1
    ensures 0 < s < |tr.word| && !OverrunBlank(g, s)
  {
    assert Hangs(tr, e);
    OverrunOf(tr, g, s);
  }

  ghost predicate OverrunBlank(g: seq<int>, s: nat) {
    0 <= Cell(s, MAXC) < |g| && g[Cell(s, MAXC)] == -1
  }

  /** Past the row of `s` stands the child of `s + 1` on NUL, if any. */
  lemma OverrunOf(tr: Trie, g: seq<int>, s: nat)
    requires GotoOK(tr, g, 0) && BlankFrom(g, |tr.word|) && Cell(|tr.word| + 1, 0) <= |g| && 0 < s < |tr.word|
    ensures OverrunBlank(g, s) <==> forall e: nat :: 0 < e < |tr.word| ==> !(Exposed(tr, e) && tr.parent[e] == s + 1)
    ensures forall e: nat :: 0 < e < |tr.word| ==>
              (0 <= Cell(s, MAXC) < |g| && g[Cell(s, MAXC)] == e <==> Exposed(tr, e) && tr.parent[e] == s + 1)
  {
    assert Cell(s, MAXC) == Cell(s + 1, 0);
    var x := g[Cell(s + 1, 0)];
    if s + 1 < |tr.word| {
      forall e: nat | 0 < e < |tr.word| ensures x == e <==> Exposed(tr, e) && tr.parent[e] == s + 1 {
        EntryIs(tr, g, s + 1, 0, e);
      }
      assert x == -1 || 0 < x < |tr.word| by { assert Sound(tr, g, s + 1, 0, 0); }
      if x != -1 { assert Exposed(tr, x) && tr.parent[x] == s + 1; }
    } else {
      assert x == -1;
      forall e: nat | 0 < e < |tr.word| ensures !(Exposed(tr, e) && tr.parent[e] == s + 1) { assert Hangs(tr, e); }
    }
  }

  // ----- the queue -----

  /** The state pushed at column `c` from `base`, if its entry is not `none`. */
  function RowEntry(g: seq<int>, none: int, base: int, c: nat): seq<int> {
    if 0 <= base + c < |g| && g[base + c] != none then [g[base + c]] else []
  }

  /** The states pushed over columns [0, n). */
  function Row(g: seq<int>, none: int, base: int, n: nat): seq<int> {
    if n == 0 then [] else Row(g, none, base, n - 1) + RowEntry(g, none, base, n - 1)
  }

  lemma RowNext(g: seq<int>, none: int, base: int, n: nat)
    ensures Row(g, none, base, n + 1) == Row(g, none, base, n) + RowEntry(g, none, base, n)
  {
  }

  /** The states pushed for one dequeued state: the root's loop ends before `MAXC`, the others at `last`. */
  function Pushes(g: seq<int>, s: nat, last: nat): seq<int> {
    if s == 0 then Row(g, 0, 0, MAXC) else Row(g, -1, Cell(s, 0), last + 1)
  }

  function Pushed(g: seq<int>, order: seq<nat>, last: nat): seq<int> {
    if order == [] then []
    else Pushed(g, order[..|order| - 1], last) + Pushes(g, order[|order| - 1], last)
  }

  /** A completed search: first in, first out, every state dequeued is the root or was pushed for an
      earlier one, and everything pushed is dequeued. */
  predicate Dequeues(g: seq<int>, order: seq<nat>, last: nat) {
    order == [0] + Pushed(g, order, last)
  }

  /** The first `n` states have been dequeued and what they push has been queued. */
  predicate Queued(g: seq<int>, order: seq<nat>, n: nat, last: nat)
    requires n <= |order|
  {
    order == [0] + Pushed(g, order[..n], last)
  }

  lemma QueueStart(g: seq<int>, order: seq<nat>, last: nat)
    requires order == [0] + Pushes(g, 0, 0)
    ensures Queued(g, order, 1, last)
  {
    assert order[..1] == [0] && [0][..0] == [];
    assert Pushed(g, [0], last) == Pushes(g, 0, last);
  }

  lemma PushedSnoc(g: seq<int>, done: seq<nat>, s: nat, last: nat)
    ensures Pushed(g, done + [s], last) == Pushed(g, done, last) + Pushes(g, s, last)
  {
    assert (done + [s])[..|done|] == done;
  }

  lemma ConcatAssociates(a: seq<int>, b: seq<int>, c: seq<int>)
    ensures (a + b) + c == a + (b + c)
  {
  }

  lemma QueueNext(g: seq<int>, order: seq<nat>, order': seq<nat>, n: nat, last: nat)
    requires n < |order| && Queued(g, order, n, last) && order' == order + Pushes(g, order[n], last)
    ensures Queued(g, order', n + 1, last)
  {
    PushedTo(g, order, order', n, last);
    ConcatAssociates([0], Pushed(g, order[..n], last), Pushes(g, order[n], last));
  }

  lemma PushedTo(g: seq<int>, order: seq<nat>, order': seq<nat>, n: nat, last: nat)
    requires n < |order| && order <= order'
    ensures Pushed(g, order'[..n + 1], last) == Pushed(g, order[..n], last) + Pushes(g, order[n], last)
  {
    assert order'[..n + 1] == order[..n] + [order[n]];
    PushedSnoc(g, order[..n], order[n], last);
  }

  lemma QueueEmpty(g: seq<int>, order: seq<nat>, last: nat)
    requires Queued(g, order, |order|, last)
    ensures Dequeues(g, order, last)
  {
    assert order[..|order|] == order;
  }

  function Count(s: seq<int>, e: int): nat {
    if s == [] then 0 else Count(s[..|s| - 1], e) + if s[|s| - 1] == e then 1 else 0
  }

  lemma {:induction false} CountConcat(a: seq<int>, b: seq<int>, e: int)
    ensures Count(a + b, e) == Count(a, e) + Count(b, e)
  {
    if b == [] {
      assert a + b == a;
    } else {
      CountConcat(a, b[..|b| - 1], e);
      assert (a + b)[..|a + b| - 1] == a + b[..|b| - 1];
    }
  }

  /** A state is pushed at column `c`. */
  predicate At(g: seq<int>, base: int, c: nat, e: int) {
    0 <= base + c < |g| && g[base + c] == e
  }

  lemma EntryCount(g: seq<int>, none: int, base: int, c: nat, e: int)
    ensures Count(RowEntry(g, none, base, c), e) == if At(g, base, c, e) && e != none then 1 else 0
  {
    var r := RowEntry(g, none, base, c);
    if r != [] { assert r[..0] == []; }
  }

  /** How often `e` is pushed over columns [0, n). */
  function RowCount(g: seq<int>, none: int, base: int, n: nat, e: int): nat {
    Count(Row(g, none, base, n), e)
  }

  lemma RowStep(g: seq<int>, none: int, base: int, n: nat, e: int)
    requires n > 0
    ensures RowCount(g, none, base, n, e) ==
            RowCount(g, none, base, n - 1, e) + if At(g, base, n - 1, e) && e != none then 1 else 0
  {
    EntryCount(g, none, base, n - 1, e);
    CountConcat(Row(g, none, base, n - 1), RowEntry(g, none, base, n - 1), e);
  }

  /** Nothing is pushed over columns that do not hold `e`. */
  lemma {:induction false} RowBlank(g: seq<int>, none: int, base: int, m: nat, n: nat, e: int)
    requires m <= n && (e == none || forall c: nat :: m <= c < n ==> !At(g, base, c, e))
    ensures RowCount(g, none, base, n, e) == RowCount(g, none, base, m, e)
  {
    if n == m {
    } else {
      RowStep(g, none, base, n, e);
      RowBlank(g, none, base, m, n - 1, e);
    }
  }

  lemma RowAbsent(g: seq<int>, none: int, base: int, n: nat, e: int)
    requires e == none || forall c: nat :: c < n ==> !At(g, base, c, e)
    ensures Count(Row(g, none, base, n), e) == 0
  {
    RowBlank(g, none, base, 0, n, e);
  }

  lemma RowOnce(g: seq<int>, none: int, base: int, n: nat, e: int, c: nat)
    requires c < n && e != none && At(g, base, c, e) && forall d: nat :: d < n && d != c ==> !At(g, base, d, e)
    ensures Count(Row(g, none, base, n), e) == 1
  {
    RowBlank(g, none, base, 0, c, e);
    RowStep(g, none, base, c + 1, e);
    RowBlank(g, none, base, c + 1, n, e);
  }

  /** The finished goto table, with a row after the last state when the loop reads past its row. */
  ghost predicate Table(ws: seq<Word>, tr: Trie, g: seq<int>, last: nat) {
    && GotoOK(tr, g, 0) && Spells(ws, tr) && Numbered(ws, tr) && BlankFrom(g, |tr.word|)
    && (last == MAXC - 1 || (last == MAXC && Cell(|tr.word| + 1, 0) <= |g|))
  }

  /** `e` is pushed for its parent, and once more for the state before the parent when the loop reads
      past that state's row and `e` hangs there on NUL. */
  ghost predicate PushedFor(tr: Trie, s: nat, e: nat, last: nat)
    requires 0 < e < |tr.word| == |tr.parent|
  {
    tr.parent[e] == s || (last == MAXC && s + 1 == tr.parent[e] && Exposed(tr, e))
  }

  lemma PushesCount(ws: seq<Word>, tr: Trie, g: seq<int>, s: nat, e: nat, last: nat)
    requires Table(ws, tr, g, last) && 0 < e < |tr.word|
    ensures Count(Pushes(g, s, last), e) == if PushedFor(tr, s, e, last) then 1 else 0
  {
    assert Hangs(tr, e);
    if s >= |tr.word| {
      RowAbsent(g, -1, Cell(s, 0), last + 1, e);
    } else {
      forall c: Chr ensures At(g, Cell(s, 0), c, e) <==> tr.parent[e] == s && LastChar(tr, e) == c {
        EntryIs(tr, g, s, c, e);
      }
      if s > 0 && last == MAXC { OverrunOf(tr, g, s); }
      var base, none, n := Cell(s, 0), if s == 0 then 0 else -1, if s == 0 then MAXC else last + 1;
      if tr.parent[e] == s {
        RowOnce(g, none, base, n, e, LastChar(tr, e));
      } else if PushedFor(tr, s, e, last) {
        RowOnce(g, none, base, n, e, MAXC);
      } else {
        RowAbsent(g, none, base, n, e);
      }
    }
  }

  lemma {:induction false} PushedCount(ws: seq<Word>, tr: Trie, g: seq<int>, order: seq<nat>, e: nat, last: nat)
    requires Table(ws, tr, g, last) && 0 < e < |tr.word|
    ensures Count(Pushed(g, order, last), e) ==
              Count(order, tr.parent[e]) + if last == MAXC && Exposed(tr, e) then Count(order, tr.parent[e] - 1) else 0
  {
    if order == [] {
    } else {
      var init, s := order[..|order| - 1], order[|order| - 1];
      PushedCount(ws, tr, g, init, e, last);
      PushesCount(ws, tr, g, s, e, last);
      CountConcat(Pushed(g, init, last), Pushes(g, s, last), e);
    }
  }

  lemma RootNotIn(ws: seq<Word>, tr: Trie, g: seq<int>, s: nat, last: nat)
    requires Table(ws, tr, g, last)
    ensures Count(Pushes(g, s, last), 0) == 0
  {
    if s > 0 {
      forall c: nat | c < last + 1 ensures !At(g, Cell(s, 0), c, 0) {
        if c < MAXC && s < |tr.word| { assert Sound(tr, g, s, c, 0); }
        if c == MAXC && s + 1 < |tr.word| { assert Sound(tr, g, s + 1, 0, 0); }
      }
    }
    RowAbsent(g, if s == 0 then 0 else -1, Cell(s, 0), if s == 0 then MAXC else last + 1, 0);
  }

  lemma {:induction false} RootNotPushed(ws: seq<Word>, tr: Trie, g: seq<int>, order: seq<nat>, last: nat)
    requires Table(ws, tr, g, last)
    ensures Count(Pushed(g, order, last), 0) == 0
  {
    if order == [] {
    } else {
      var init, s := order[..|order| - 1], order[|order| - 1];
      RootNotPushed(ws, tr, g, init, last);
      RootNotIn(ws, tr, g, s, last);
      CountConcat(Pushed(g, init, last), Pushes(g, s, last), 0);
    }
  }

  /** In a completed search the root is dequeued once, any other state as often as its parent, and as
      often again as the state before the parent when it is exposed. */
  lemma DequeueCount(ws: seq<Word>, tr: Trie, g: seq<int>, order: seq<nat>, e: nat, last: nat)
    requires Table(ws, tr, g, last) && Dequeues(g, order, last) && e < |tr.word|
    ensures e == 0 ==> Count(order, e) == 1
    ensures e > 0 ==>
              Count(order, e) == Count(order, tr.parent[e])
                                 + if last == MAXC && Exposed(tr, e) then Count(order, tr.parent[e] - 1) else 0
  {
    CountConcat([0], Pushed(g, order, last), e);
    assert Count([0], e) == if e == 0 then 1 else 0 by { assert [0][..0] == []; }
    if e == 0 {
      RootNotPushed(ws, tr, g, order, last);
    } else {
      PushedCount(ws, tr, g, order, e, last);
    }
  }

  lemma {:induction false} Dequeued(ws: seq<Word>, tr: Trie, g: seq<int>, order: seq<nat>, e: nat, last: nat)
    requires Table(ws, tr, g, last) && Dequeues(g, order, last) && e < |tr.word|
    ensures Count(order, e) >= 1
    ensures (last == MAXC ==> forall x: nat :: 0 < x <= e ==> !Exposed(tr, x)) ==> Count(order, e) == 1
  {
    DequeueCount(ws, tr, g, order, e, last);
    if e == 0 {
    } else {
      assert Hangs(tr, e);
      Dequeued(ws, tr, g, order, tr.parent[e], last);
    }
  }

  /** A completed search dequeues every state exactly once, exactly when it stops at its row's last
      column or the word list is clear of NULs. */
  lemma OnceExactly(ws: seq<Word>, tr: Trie, g: seq<int>, order: seq<nat>, last: nat)
    requires Table(ws, tr, g, last) && Dequeues(g, order, last)
    ensures (forall s: nat :: s < |tr.word| ==> Count(order, s) == 1) <==> last == MAXC - 1 || NulClear(ws)
  {
    NulClearMeaning(ws, tr);
    forall s: nat | s < |tr.word| ensures Count(order, s) >= 1 {
      Dequeued(ws, tr, g, order, s, last);
    }
    if last == MAXC - 1 || NulClear(ws) {
      forall s: nat | s < |tr.word| ensures Count(order, s) == 1 {
        Dequeued(ws, tr, g, order, s, last);
      }
    } else {
      var e: nat :| 0 < e < |tr.word| && Exposed(tr, e);
      DequeueCount(ws, tr, g, order, e, last);
      assert Count(order, e) >= 2;
    }
  }

  // ----- word lists that are not clear of NULs -----

  /** "a" and "b NUL", their trie, and their goto table in five rows. */
  const TWICE: seq<Word> := [[97], [98, 0]]
  const TWICE_TRIE := Trie([[], [97], [98], [98, 0]], [0, 0, 0, 2])

  function TwiceEntry(k: int): int {
    if k == 97 then 1 else if k == 98 then 2 else if k == Cell(2, 0) then 3 else if k < MAXC then 0 else -1
  }

  ghost predicate TwiceTable(g: seq<int>) {
    |g| == Cell(5, 0) && forall k :: 0 <= k < |g| ==> g[k] == TwiceEntry(k)
  }

  /** The search over this table dequeues state 3 twice: pushed once for state 1, past whose row it
      stands, and once for its parent. */
  lemma DequeuedTwice(g: seq<int>, order: seq<nat>, last: nat)
    requires TwiceTable(g) && order == [0, 1, 2, 3, 3] && last == MAXC
    ensures Table(TWICE, TWICE_TRIE, g, last) && Dequeues(g, order, last)
  {
    TwiceIsTable(g);
    TwicePushes(g, last);
    assert order[..4][..3] == [0, 1, 2] && order[..4] == [0, 1, 2, 3];
    assert [0, 1, 2][..2] == [0, 1] && [0, 1][..1] == [0] && [0][..0] == [];
    assert Pushed(g, [0], last) == [1, 2];
    assert Pushed(g, [0, 1], last) == [1, 2, 3];
    assert Pushed(g, [0, 1, 2], last) == [1, 2, 3, 3];
    assert Pushed(g, order[..4], last) == [1, 2, 3, 3];
  }

  lemma TwicePushes(g: seq<int>, last: nat)
    requires TwiceTable(g) && last == MAXC
    ensures Pushes(g, 0, last) == [1, 2] && Pushes(g, 1, last) == [3] && Pushes(g, 2, last) == [3] && Pushes(g, 3, last) == []
  {
    assert Pushes(g, 0, last) == [1, 2] by { TwiceRootRow(g); }
    assert Pushes(g, 1, last) == [3] by { TwiceRowPast(g, last); }
    assert Pushes(g, 2, last) == [3] by { TwiceRowOwn(g, last); }
    assert Pushes(g, 3, last) == [] by { RowSkip(g, -1, Cell(3, 0), 0, last + 1); }
  }

  lemma TwiceRootRow(g: seq<int>)
    requires TwiceTable(g)
    ensures Row(g, 0, 0, MAXC) == [1, 2]
  {
    assert Row(g, 0, 0, 98) == [1] by { RowHit(g, 0, 0, 0, 97, 98); }
    assert Row(g, 0, 0, MAXC) == [1] + [2] by { RowHit(g, 0, 0, 98, 98, MAXC); }
  }

  lemma TwiceRowPast(g: seq<int>, last: nat)
    requires TwiceTable(g) && last == MAXC
    ensures Row(g, -1, Cell(1, 0), last + 1) == [3]
  {
    RowHit(g, -1, Cell(1, 0), 0, last, last + 1);
  }

  lemma TwiceRowOwn(g: seq<int>, last: nat)
    requires TwiceTable(g) && last == MAXC
    ensures Row(g, -1, Cell(2, 0), last + 1) == [3]
  {
    RowHit(g, -1, Cell(2, 0), 0, 0, last + 1);
  }

  /** One entry among blank ones. */
  lemma RowHit(g: seq<int>, none: int, base: int, m: nat, k: nat, n: nat)
    requires m <= k < n && 0 <= base && base + n <= |g| && g[base + k] != none
    requires forall j :: base + m <= j < base + n && j != base + k ==> g[j] == none
    ensures Row(g, none, base, n) == Row(g, none, base, m) + [g[base + k]]
  {
    RowSkip(g, none, base, m, k);
    RowNext(g, none, base, k);
    RowSkip(g, none, base, k + 1, n);
  }

  lemma {:induction false} RowSkip(g: seq<int>, none: int, base: int, m: nat, n: nat)
    requires m <= n && 0 <= base && base + n <= |g| && forall k :: base + m <= k < base + n ==> g[k] == none
    ensures Row(g, none, base, n) == Row(g, none, base, m)
  {
    if n == m {
    } else {
      RowSkip(g, none, base, m, n - 1);
    }
  }

  lemma TwiceIsTable(g: seq<int>)
    requires TwiceTable(g)
    ensures Table(TWICE, TWICE_TRIE, g, MAXC)
  {
    var tr := TWICE_TRIE;
    assert [98, 0][..1] == [98] && [97][..0] == [] && [98][..0] == [];
    forall t: nat | 0 < t < |tr.word| ensures Hangs(tr, t) && Linked(tr, g, t) {}
    forall s: nat, c: Chr | s < |tr.word| ensures Sound(tr, g, s, c, 0) {
      TwiceSound(g, s, c);
    }
    TwiceSpells();
  }

  lemma TwiceSound(g: seq<int>, s: nat, c: Chr)
    requires TwiceTable(g) && s < 4
    ensures Sound(TWICE_TRIE, g, s, c, 0)
  {
    assert [] + [c] == [c] && [98] + [c] == [98, c];
  }

  lemma TwiceSpells()
    ensures Spells(TWICE, TWICE_TRIE)
  {
    forall u | InTrie(TWICE, u) ensures u in TWICE_TRIE.word {
      if u != [] {
        var i :| 0 <= i < |TWICE| && u <= TWICE[i];
        assert u == TWICE[i][..|u|] && |u| <= 2;
        assert TWICE_TRIE.word[1] == [97] && TWICE_TRIE.word[2] == [98] && TWICE_TRIE.word[3] == [98, 0];
        assert [97][..1] == [97] && [98, 0][..1] == [98] && [98, 0][..2] == [98, 0];
      }
    }
    forall s | 0 <= s < |TWICE_TRIE.word| ensures InTrie(TWICE, TWICE_TRIE.word[s]) {
      assert s == 1 ==> TWICE_TRIE.word[s] <= TWICE[0];
      assert s >= 2 ==> TWICE_TRIE.word[s] <= TWICE[1];
    }
  }

  /** For "x NUL", "a", "b NUL" the output table goes wrong: expanding "a" reads past its row the state of
      "b NUL", and its failure loop finds past the root's row the state of "x NUL"; merging the output of
      that one reports "x NUL" at "b NUL", of which it is no suffix. Later merges only add. */
  lemma WrongMerge(ws: seq<Word>, tr: Trie, g: seq<int>, f: seq<int>, out: seq<set<nat>>)
    requires ws == [[120, 0], [97], [98, 0]] && Table(ws, tr, g, MAXC)
    requires tr.word == [[], [120], [120, 0], [97], [98], [98, 0]]
    requires |f| >= 6 && FailOK(ws, tr, f, 3) && |out| >= 6 && 0 in out[2]
    ensures g[Cell(3, MAXC)] == 5 && g[Cell(f[3], MAXC)] == 2
    ensures var e, x := g[Cell(3, MAXC)], g[Cell(f[3], MAXC)];
            0 in out[e := out[e] + out[x]][e] && 0 !in Merged(ws, tr.word[e])
  {
    OverrunLinks(ws, tr, g, f);
    NotMerged(ws, tr.word[5]);
  }

  lemma NotMerged(ws: seq<Word>, u: Word)
    requires ws == [[120, 0], [97], [98, 0]] && u == [98, 0]
    ensures 0 !in Merged(ws, u)
  {
    assert InTrie(ws, u) by { assert u <= ws[2]; }
    assert !IsSuffix(ws[0], u) by { assert u[0..] == u && u[0] != ws[0][0]; }
    MergedMeaning(ws, u, 0);
  }

  lemma OverrunLinks(ws: seq<Word>, tr: Trie, g: seq<int>, f: seq<int>)
    requires ws == [[120, 0], [97], [98, 0]] && Table(ws, tr, g, MAXC)
    requires tr.word == [[], [120], [120, 0], [97], [98], [98, 0]]
    requires |f| >= 6 && FailOK(ws, tr, f, 3)
    ensures g[Cell(3, MAXC)] == 5 && f[3] == 0 && g[Cell(f[3], MAXC)] == 2
  {
    assert Hangs(tr, 5) && tr.word[5][..1] == tr.word[4];
    assert Hangs(tr, 2) && tr.word[2][..1] == tr.word[1];
    OverrunOf(tr, g, 3);
    EntryIs(tr, g, 1, 0, 2);
    assert Cell(0, MAXC) == Cell(1, 0);
    assert Failure(ws, tr.word[3]) == [] by { assert tr.word[3][1..] == []; }
  }
}
