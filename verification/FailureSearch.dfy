/** The breadth-first phase of the builder: failure links and merged outputs. */
module FailureSearch {
  import opened Strings
  import opened TrieSpec
  import opened Automaton
  import opened TrieGrowth
  import opened SearchQueue

  function Depth(tr: Trie, s: nat): nat
    requires s < |tr.word|
  {
    |tr.word[s]|
  }

  /** The states met so far (`order`, root first), in the order they entered the queue:
      each once, by non-decreasing depth. */
  ghost predicate Ordered(tr: Trie, order: seq<nat>) {
    && |order| > 0 && order[0] == 0
    && (forall i :: 0 <= i < |order| ==> order[i] < |tr.word|)
    && (forall i, j :: 0 <= i < j < |order| ==> order[i] != order[j])
    && (forall i, j :: 0 <= i < j < |order| ==> Depth(tr, order[i]) <= Depth(tr, order[j]))
  }

  ghost predicate Among(order: seq<nat>, n: nat, s: nat) {
    exists i :: 0 <= i < n && i < |order| && order[i] == s
  }

  /** `s` has entered the queue exactly when its parent is expanded, or is being expanded past
      the character that leads to `s`. */
  ghost predicate MetIffReached(tr: Trie, order: seq<nat>, n: nat, ch: nat, s: nat)
    requires Shape(tr) && 0 < s < |tr.word|
  {
    Hangs(tr, s) &&
    (Among(order, |order|, s) <==>
       || Among(order, n, tr.parent[s])
       || (n < |order| && tr.parent[s] == order[n] && tr.word[s][|tr.word[s]| - 1] < ch))
  }

  /** `order[..n]` are expanded; `order[n]`, if any, is being expanded up to character `ch`. */
  ghost predicate Frontier(tr: Trie, order: seq<nat>, n: nat, ch: nat) {
    && Shape(tr) && Ordered(tr, order)
    && n <= |order| && (n < |order| || ch == 0)
    && (forall i :: 0 <= i < |order| && n < |order| ==> Depth(tr, order[i]) <= Depth(tr, order[n]) + 1)
    && (forall s: nat :: 0 < s < |tr.word| ==> MetIffReached(tr, order, n, ch, s))
  }

  /** Tables of a state: final once it has been met. */
  ghost predicate Settled(ws: seq<Word>, tr: Trie, f: seq<int>, out: seq<set<nat>>, order: seq<nat>, s: nat)
    requires s < |tr.word|
  {
    if s > 0 && Among(order, |order|, s) then FailOK(ws, tr, f, s) && OutOK(ws, tr, out, s)
    else s < |out| && out[s] == Own(ws, tr.word[s])
  }

  ghost predicate AllSettled(ws: seq<Word>, tr: Trie, f: seq<int>, out: seq<set<nat>>, order: seq<nat>) {
    forall s: nat :: s < |tr.word| ==> Settled(ws, tr, f, out, order, s)
  }

  ghost predicate Searching(ws: seq<Word>, tr: Trie, g: seq<int>, f: seq<int>, out: seq<set<nat>>,
                            order: seq<nat>, n: nat, ch: nat) {
    && GotoOK(tr, g, 0) && Spells(ws, tr) && Numbered(ws, tr) && BlankFrom(g, |tr.word|)
    && |tr.word| <= |out| == |f| && |g| == Cell(|out|, 0) && Unlinked(tr, f)
    && Frontier(tr, order, n, ch)
    && AllSettled(ws, tr, f, out, order)
  }

  /** The root and the rows past the last state have no failure link. */
  ghost predicate Unlinked(tr: Trie, f: seq<int>) {
    forall s :: 0 <= s < |f| && (s == 0 || s >= |tr.word|) ==> f[s] == -1
  }

  lemma SearchStart(ws: seq<Word>, tr: Trie, g: seq<int>, f: seq<int>, out: seq<set<nat>>)
    requires GotoOK(tr, g, 0) && Spells(ws, tr) && Numbered(ws, tr) && BlankFrom(g, |tr.word|)
    requires |tr.word| <= |out| == |f| && |g| == Cell(|out|, 0) && Unlinked(tr, f)
    requires forall s :: 0 <= s < |tr.word| ==> out[s] == Own(ws, tr.word[s])
    ensures Searching(ws, tr, g, f, out, [0], 0, 0)
  {
    forall s: nat | 0 < s < |tr.word| ensures MetIffReached(tr, [0], 0, 0, s) {
      assert Hangs(tr, s);
    }
  }

  /** Everything no deeper than the state being expanded has been met. */
  lemma {:induction false} ShallowIsMet(tr: Trie, order: seq<nat>, n: nat, ch: nat, s: nat)
    requires Frontier(tr, order, n, ch) && n < |order|
    requires 0 < s < |tr.word| && Depth(tr, s) <= Depth(tr, order[n])
    ensures Among(order, |order|, s)
    decreases Depth(tr, s)
  {
    var p := tr.parent[s];
    assert MetIffReached(tr, order, n, ch, s);
    if p == 0 {
      assert order[0] == 0;
    } else {
      ShallowIsMet(tr, order, n, ch, p);
      var k :| 0 <= k < |order| && order[k] == p;
      assert k < n;
    }
  }

  /** No child on `c`: moving on meets nothing new. */
  lemma SkipCharacter(tr: Trie, order: seq<nat>, n: nat, c: Chr)
    requires Frontier(tr, order, n, c) && n < |order|
    requires tr.word[order[n]] + [c] !in tr.word
    ensures Frontier(tr, order, n, c + 1)
  {
    var c' := c + 1;
    forall s: nat | 0 < s < |tr.word| ensures MetIffReached(tr, order, n, c', s) {
      assert MetIffReached(tr, order, n, c, s);
      var u := tr.word[s];
      assert u == u[..|u| - 1] + [u[|u| - 1]];
    }
  }

  lemma AmongSnoc(order: seq<nat>, x: nat, n: nat, s: nat)
    requires n <= |order|
    ensures Among(order + [x], n, s) <==> Among(order, n, s)
    ensures Among(order + [x], |order| + 1, s) <==> Among(order, |order|, s) || s == x
  {
    var order' := order + [x];
    assert forall i :: 0 <= i < |order| ==> order'[i] == order[i];
    assert order'[|order|] == x;
  }

  /** A child on `c` enters the queue, for the first time. */
  lemma MeetChild(tr: Trie, order: seq<nat>, n: nat, c: Chr, child: nat)
    requires Frontier(tr, order, n, c) && n < |order|
    requires 0 < child < |tr.word| && tr.word[child] == tr.word[order[n]] + [c]
    ensures !Among(order, |order|, child)
    ensures Frontier(tr, order + [child], n, c + 1)
  {
    var p := order[n];
    assert MetIffReached(tr, order, n, c, child);
    assert tr.word[child][..|tr.word[child]| - 1] == tr.word[p];
    assert tr.parent[child] == p;
    var order', c' := order + [child], c + 1;
    OrderedSnoc(tr, order, child);
    forall s: nat | 0 < s < |tr.word| ensures MetIffReached(tr, order', n, c', s) {
      MeetOne(tr, order, n, c, child, s);
    }
  }

  lemma OrderedSnoc(tr: Trie, order: seq<nat>, child: nat)
    requires Ordered(tr, order) && child < |tr.word| && !Among(order, |order|, child)
    requires forall i :: 0 <= i < |order| ==> Depth(tr, order[i]) <= Depth(tr, child)
    ensures Ordered(tr, order + [child])
  {
  }

  lemma MeetOne(tr: Trie, order: seq<nat>, n: nat, c: Chr, child: nat, s: nat)
    requires Shape(tr) && n < |order| && order[n] < |tr.word| && 0 < s < |tr.word| && MetIffReached(tr, order, n, c, s)
    requires 0 < child < |tr.word| && tr.parent[child] == order[n] && tr.word[child] == tr.word[order[n]] + [c]
    requires !Among(order, n, order[n])
    ensures MetIffReached(tr, order + [child], n, c + 1, s)
  {
    AmongSnoc(order, child, |order|, s);
    AmongSnoc(order, child, n, tr.parent[s]);
    assert Hangs(tr, s) && Hangs(tr, child);
    if tr.parent[s] == order[n] && tr.word[s][|tr.word[s]| - 1] == c {
      assert tr.word[s] == tr.word[child];
    }
  }

  /** The failure state of a child is shallower than the child, so its output is final. */
  lemma FailureIsSettled(ws: seq<Word>, tr: Trie, f: seq<int>, out: seq<set<nat>>,
                         order: seq<nat>, n: nat, c: Chr, failure: nat)
    requires Frontier(tr, order, n, c) && 0 < n < |order| && AllSettled(ws, tr, f, out, order)
    requires failure < |tr.word| && Depth(tr, failure) <= Depth(tr, order[n])
    ensures failure < |out| && out[failure] == Merged(ws, tr.word[failure])
  {
    if failure > 0 { ShallowIsMet(tr, order, n, c, failure); }
    assert Settled(ws, tr, f, out, order, failure);
  }

  /** Recording a new state's link and output settles it and leaves the others alone. */
  lemma SettleChild(ws: seq<Word>, tr: Trie, f: seq<int>, out: seq<set<nat>>,
                    order: seq<nat>, child: nat, failure: nat, merged: set<nat>)
    requires |tr.word| <= |out| == |f| && AllSettled(ws, tr, f, out, order)
    requires 0 < child < |tr.word| && tr.word[child] != []
    requires failure < |tr.word| && tr.word[failure] == Failure(ws, tr.word[child])
    requires merged == Merged(ws, tr.word[child])
    ensures AllSettled(ws, tr, f[child := failure], out[child := merged], order + [child])
  {
    var f', out', order' := f[child := failure], out[child := merged], order + [child];
    forall s: nat | s < |tr.word| ensures Settled(ws, tr, f', out', order', s) {
      assert Settled(ws, tr, f, out, order, s);
      AmongSnoc(order, child, 0, s);
    }
  }

  lemma SettleGrandchild(ws: seq<Word>, tr: Trie, f: seq<int>, out: seq<set<nat>>,
                         order: seq<nat>, n: nat, c: Chr, child: nat, failure: nat)
    requires Frontier(tr, order, n, c) && 0 < n < |order|
    requires |tr.word| <= |out| == |f| && AllSettled(ws, tr, f, out, order)
    requires 0 < child < |tr.word| && tr.word[child] == tr.word[order[n]] + [c]
    requires failure < |tr.word| && tr.word[failure] == Failure(ws, tr.word[child])
    ensures AllSettled(ws, tr, f[child := failure], out[child := out[child] + out[failure]], order + [child])
  {
    FailureIsSettled(ws, tr, f, out, order, n, c, failure);
    MeetChild(tr, order, n, c, child);
    assert order[n] != order[0];
    assert out[child] == Own(ws, tr.word[child]) by { assert Settled(ws, tr, f, out, order, child); }
    SettleChild(ws, tr, f, out, order, child, failure, out[child] + out[failure]);
  }

  /** The state at `n` is fully expanded. */
  lemma FinishState(tr: Trie, order: seq<nat>, n: nat)
    requires Frontier(tr, order, n, MAXC) && n < |order|
    ensures Frontier(tr, order, n + 1, 0)
  {
    var n' := n + 1;
    forall s: nat | 0 < s < |tr.word| ensures MetIffReached(tr, order, n', 0, s) {
      assert MetIffReached(tr, order, n, MAXC, s);
    }
  }

  /** When the queue runs empty every state has been met. */
  lemma {:induction false} EmptyQueueMetAll(tr: Trie, order: seq<nat>, s: nat)
    requires Frontier(tr, order, |order|, 0) && s < |tr.word|
    ensures Among(order, |order|, s)
  {
    if s == 0 {
      assert order[0] == 0;
    } else {
      assert MetIffReached(tr, order, |order|, 0, s);
      EmptyQueueMetAll(tr, order, tr.parent[s]);
    }
  }

  lemma MeetRootChild(ws: seq<Word>, tr: Trie, g: seq<int>, f: seq<int>, out: seq<set<nat>>,
                      order: seq<nat>, c: Chr, child: nat)
    requires Searching(ws, tr, g, f, out, order, 0, c)
    requires 0 < child < |tr.word| && tr.word[child] == tr.word[0] + [c]
    ensures Searching(ws, tr, g, f[child := 0], out, order + [child], 0, c + 1)
  {
    assert tr.word[child][1..] == [];
    MeetChild(tr, order, 0, c, child);
    assert out[child] == Own(ws, tr.word[child]) by { assert Settled(ws, tr, f, out, order, child); }
    SettleChild(ws, tr, f, out, order, child, 0, out[child]);
    assert out[child := out[child]] == out;
  }

  /** The root is being expanded. */
  ghost predicate Seeding(ws: seq<Word>, tr: Trie, g: array<int>, f: array<int>, out: seq<set<nat>>, order: seq<nat>, ch: nat)
    reads g, f
  {
    f != g && Searching(ws, tr, g[..], f[..], out, order, 0, ch)
  }

  /** The root's columns up to `ch` have been read into the queue. */
  ghost predicate Seeded(ws: seq<Word>, tr: Trie, g: array<int>, f: array<int>, out: seq<set<nat>>, q: seq<nat>, ch: nat)
    reads g, f
  {
    Seeding(ws, tr, g, f, out, [0] + q, ch) && q == Row(g[..], 0, 0, ch)
  }

  /** One character: a child of the root enters the queue with failure link 0. */
  method SeedCharacter(g: array<int>, f: array<int>, q: seq<nat>, ch: Chr, ghost ws: seq<Word>, ghost tr: Trie,
                       ghost out: seq<set<nat>>)
    returns (q': seq<nat>)
    requires Seeded(ws, tr, g, f, out, q, ch) && ch < MAXC
    modifies f
    ensures Seeded(ws, tr, g, f, out, q', ch + 1) && g[..] == old(g[..])
  {
    q' := q;
    RowNext(g[..], 0, 0, ch);
    ghost var order := [0] + q;
    GotoMeaning(ws, tr, g[..], 0, 0, ch);
    if g[Cell(0, ch)] != 0 {
      var child: nat := g[Cell(0, ch)];
      MeetRootChild(ws, tr, g[..], f[..], out, order, ch, child);
      f[child] := 0;
      q' := q + [child];
      assert [0] + q' == order + [child];
    } else {
      SkipCharacter(tr, order, 0, ch);
    }
  }

  /** The first loop of the search: the root's children, with links to the root. */
  method SeedQueue(g: array<int>, f: array<int>, ghost ws: seq<Word>, ghost tr: Trie, ghost out: seq<set<nat>>)
    returns (q: seq<nat>, ghost order: seq<nat>)
    requires Seeding(ws, tr, g, f, out, [0], 0)
    modifies f
    ensures order == [0] + q && q == Pushes(g[..], 0, 0) && g[..] == old(g[..])
    ensures Searching(ws, tr, g[..], f[..], out, order, 1, 0)
  {
    q := [];
    assert [0] + q == [0];
    for ch := 0 to MAXC
      invariant Seeded(ws, tr, g, f, out, q, ch) && g[..] == old(g[..])
    {
      q := SeedCharacter(g, f, q, ch, ws, tr, out);
    }
    order := [0] + q;
    SeedDone(ws, tr, g[..], f[..], out, order);
  }

  lemma SeedDone(ws: seq<Word>, tr: Trie, g: seq<int>, f: seq<int>, out: seq<set<nat>>, order: seq<nat>)
    requires Searching(ws, tr, g, f, out, order, 0, MAXC) && order != []
    ensures Searching(ws, tr, g, f, out, order, 1, 0)
  {
    FinishState(tr, order, 0);
  }

  /** The failure loop of the builder, run on links that are already final. */
  method FollowFailure(g: array<int>, f: array<int>, state: nat, ch: Chr, ghost ws: seq<Word>, ghost tr: Trie,
                       ghost out: seq<set<nat>>, ghost order: seq<nat>, ghost n: nat)
    returns (failure: nat)
    requires Searching(ws, tr, g[..], f[..], out, order, n, ch)
    requires 0 < n < |order| && state == order[n]
    ensures failure < |tr.word| && tr.word[failure] == Failure(ws, tr.word[state] + [ch])
  {
    assert order[0] == 0;
    assert Settled(ws, tr, f[..], out, order, state);
    forall s: nat | 0 < s < |tr.word| && |tr.word[s]| <= |tr.word[f[state]]|
      ensures FailOK(ws, tr, f[..], s)
    {
      ShallowIsMet(tr, order, n, ch, s);
      assert Settled(ws, tr, f[..], out, order, s);
    }
    ghost var hops;
    failure, hops := FindNextState(g, f, f[state], ch, ws, tr);
    FailureOfChild(ws, tr.word[state], ch);
  }

  /** One child of the state being expanded: link it, merge its output, enqueue it. */
  method VisitChild(g: array<int>, f: array<int>, out: array<set<nat>>, state: nat, ch: Chr,
                    ghost ws: seq<Word>, ghost tr: Trie, ghost order: seq<nat>, ghost n: nat)
    returns (child: nat)
    requires Searching(ws, tr, g[..], f[..], out[..], order, n, ch) && f != g
    requires 0 < n < |order| && state == order[n]
    requires 0 <= Cell(state, ch) < g.Length && 0 < g[Cell(state, ch)] < |tr.word|
    requires tr.word[g[Cell(state, ch)]] == tr.word[state] + [ch]
    modifies f, out
    ensures Searching(ws, tr, g[..], f[..], out[..], order + [child], n, ch + 1)
    ensures child == g[Cell(state, ch)] && g[..] == old(g[..])
  {
    child := g[Cell(state, ch)];
    var failure := FollowFailure(g, f, state, ch, ws, tr, out[..], order, n);
    MeetChild(tr, order, n, ch, child);
    SettleGrandchild(ws, tr, f[..], out[..], order, n, ch, child, failure);
    f[child] := failure;
    out[child] := out[child] + out[failure];
  }

  /** The tables hold what the loop up to `last` reads: with the program's bound, `last` is `MAXC` and the
      row after the last state must exist and every word be clear of NULs. */
  ghost predicate BoundOK(ws: seq<Word>, tr: Trie, rows: nat, last: nat) {
    last == MAXC - 1 || (last == MAXC && NulClear(ws) && |tr.word| < rows)
  }

  /** State `order[n]` is being expanded; its own columns up to `ch` are done. */
  ghost predicate Expanding(ws: seq<Word>, tr: Trie, g: array<int>, f: array<int>, out: array<set<nat>>,
                            order: seq<nat>, n: nat, ch: nat)
    reads g, f, out
  {
    f != g && Searching(ws, tr, g[..], f[..], out[..], order, n, if ch <= MAXC then ch else MAXC)
  }

  /** So far `order0[n]` has pushed what its columns up to `ch` hold; `q` is what is queued. */
  ghost predicate Midway(ws: seq<Word>, tr: Trie, g: array<int>, f: array<int>, out: array<set<nat>>,
                         order0: seq<nat>, order: seq<nat>, q: seq<nat>, n: nat, ch: nat)
    reads g, f, out
  {
    && 0 < n < |order0| <= |order| && Expanding(ws, tr, g, f, out, order, n, ch)
    && order == order0 + Row(g[..], -1, Cell(order0[n], 0), ch) && order[n + 1..] == q
  }

  /** One column of the row of the state being expanded, or the entry past it. */
  method ExpandCharacter(g: array<int>, f: array<int>, out: array<set<nat>>, state: nat, ch: nat, q: seq<nat>,
                         ghost ws: seq<Word>, ghost tr: Trie, ghost order0: seq<nat>, ghost order: seq<nat>, ghost n: nat,
                         ghost last: nat)
    returns (q': seq<nat>, ghost order': seq<nat>)
    requires Midway(ws, tr, g, f, out, order0, order, q, n, ch) && BoundOK(ws, tr, out.Length, last)
    requires state == order0[n] && ch <= last
    modifies f, out
    ensures Midway(ws, tr, g, f, out, order0, order', q', n, ch + 1) && g[..] == old(g[..])
  {
    q', order' := q, order;
    assert state == order[n] && state != order[0];
    RowNext(g[..], -1, Cell(state, 0), ch);
    if ch < MAXC {
      GotoMeaning(ws, tr, g[..], 0, state, ch);
    } else {
      OverrunExact(ws, tr, g[..]);
      assert OverrunBlank(g[..], state);
    }
    if g[Cell(state, ch)] != -1 {
      var child := VisitChild(g, f, out, state, ch, ws, tr, order, n);
      q' := q + [child];
      order' := order + [child];
    } else if ch < MAXC {
      SkipCharacter(tr, order, n, ch);
    }
  }

  /** Expand one dequeued state; the program's bound is `last == MAXC`, one more than the columns. */
  method ExpandState(g: array<int>, f: array<int>, out: array<set<nat>>, state: nat, q: seq<nat>, last: nat,
                     ghost ws: seq<Word>, ghost tr: Trie, ghost order: seq<nat>, ghost n: nat)
    returns (q': seq<nat>, ghost order': seq<nat>)
    requires Expanding(ws, tr, g, f, out, order, n, 0) && BoundOK(ws, tr, out.Length, last)
    requires 0 < n < |order| && state == order[n] && order[n + 1..] == q
    modifies f, out
    ensures Expanding(ws, tr, g, f, out, order', n + 1, 0) && g[..] == old(g[..])
    ensures order' == order + Pushes(g[..], state, last) && order'[n + 1..] == q'
  {
    q', order' := q, order;
    assert state != order[0];
    var ch := 0;
    while ch <= last
      invariant 0 <= ch <= last + 1 && g[..] == old(g[..])
      invariant Midway(ws, tr, g, f, out, order, order', q', n, ch)
    {
      q', order' := ExpandCharacter(g, f, out, state, ch, q', ws, tr, order, order', n, last);
      ch := ch + 1;
    }
    FinishState(tr, order', n);
  }

  /** The whole phase. `order` is the order in which states are dequeued, the root put first: what the
      queue discipline makes of the goto table. */
  method BuildFailures(g: array<int>, f: array<int>, out: array<set<nat>>, last: nat, ghost ws: seq<Word>, ghost tr: Trie)
    returns (ghost order: seq<nat>)
    requires Searching(ws, tr, g[..], f[..], out[..], [0], 0, 0) && f != g && BoundOK(ws, tr, out.Length, last)
    modifies f, out
    ensures Complete(ws, tr, g[..], f[..], out[..]) && Unlinked(tr, f[..])
    ensures Dequeues(g[..], order, last)
    ensures Ordered(tr, order) && forall s: nat :: s < |tr.word| ==> Among(order, |order|, s)
  {
    var q;
    q, order := SeedQueue(g, f, ws, tr, out[..]);
    ghost var gs := g[..];
    QueueStart(gs, order, last);
    order := EmptyQueue(g, f, out, q, last, ws, tr, order);
    QueueEmpty(gs, order, last);
    SearchFinished(ws, tr, g[..], f[..], out[..], order);
  }

  /** The queue loop, from the root's children. */
  method EmptyQueue(g: array<int>, f: array<int>, out: array<set<nat>>, q0: seq<nat>, last: nat,
                    ghost ws: seq<Word>, ghost tr: Trie, ghost order0: seq<nat>)
    returns (ghost order: seq<nat>)
    requires Expanding(ws, tr, g, f, out, order0, 1, 0) && BoundOK(ws, tr, out.Length, last)
    requires 1 <= |order0| && order0[1..] == q0 && Queued(g[..], order0, 1, last)
    modifies f, out
    ensures Expanding(ws, tr, g, f, out, order, |order|, 0) && g[..] == old(g[..])
    ensures Queued(g[..], order, |order|, last)
  {
    var q := q0;
    order := order0;
    ghost var n, gs := 1, g[..];
    while |q| > 0
      invariant 0 < n <= |order| && order[n..] == q
      invariant Expanding(ws, tr, g, f, out, order, n, 0) && g[..] == gs
      invariant Queued(gs, order, n, last)
      decreases |tr.word| - n
    {
      Pigeonhole(order, |tr.word|);
      ghost var before := order;
      q, order := ExpandState(g, f, out, q[0], q[1..], last, ws, tr, order, n);
      QueueNext(gs, before, order, n, last);
      n := n + 1;
    }
  }

  /** A state enters the queue at most once, so there are at most as many as the trie has nodes. */
  lemma {:induction false} Pigeonhole(s: seq<nat>, n: nat)
    requires forall i :: 0 <= i < |s| ==> s[i] < n
    requires forall i, j :: 0 <= i < j < |s| ==> s[i] != s[j]
    ensures |s| <= n
  {
    if i: nat :| i < |s| && s[i] == n - 1 {
      Pigeonhole(s[..i] + s[i + 1..], n - 1);
    } else if s != [] {
      assert s[0] < n;
      Pigeonhole(s, n - 1);
    }
  }

  lemma SearchFinished(ws: seq<Word>, tr: Trie, g: seq<int>, f: seq<int>, out: seq<set<nat>>, order: seq<nat>)
    requires Searching(ws, tr, g, f, out, order, |order|, 0)
    ensures Complete(ws, tr, g, f, out)
    ensures forall s: nat :: s < |tr.word| ==> Among(order, |order|, s)
  {
    forall s: nat | s < |tr.word|
      ensures OutOK(ws, tr, out, s) && (s > 0 ==> FailOK(ws, tr, f, s)) && Among(order, |order|, s)
    {
      EmptyQueueMetAll(tr, order, s);
      assert Settled(ws, tr, f, out, order, s);
    }
  }
}
