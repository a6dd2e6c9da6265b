/** The trie phase of the builder: adding nodes, and how many there are. */
module TrieGrowth {
  import opened Strings
  import opened TrieSpec
  import opened Automaton

  /** The distinct non-empty prefixes of the words. */
  ghost function NodeSet(ws: seq<Word>): set<Word> {
    set i: nat, j: nat | i < |ws| && 1 <= j <= |ws[i]| :: ws[i][..j]
  }

  /** `maxs_`: the summed word lengths. */
  function TotalLength(ws: seq<Word>): nat {
    if ws == [] then 0 else TotalLength(ws[..|ws| - 1]) + |ws[|ws| - 1]|
  }

  lemma NodeSetMeaning(ws: seq<Word>, u: Word)
    ensures u in NodeSet(ws) <==> u != [] && InTrie(ws, u)
  {
    if u != [] && InTrie(ws, u) {
      var i :| 0 <= i < |ws| && u <= ws[i];
      assert ws[i][..|u|] == u;
    }
  }

  lemma {:induction false} DistinctCount(s: seq<Word>, all: set<Word>)
    requires Injective(s) && forall i :: 0 <= i < |s| ==> s[i] in all
    ensures |s| <= |all|
    ensures (forall u :: u in all ==> u in s) ==> |s| == |all|
  {
    if s == [] {
      assert (forall u :: u in all ==> u in s) ==> all == {};
    } else {
      var last := s[|s| - 1];
      var init := s[..|s| - 1];
      DistinctCount(init, all - {last});
      if forall u :: u in all ==> u in s {
        forall u | u in all - {last} ensures u in init {
          var i :| 0 <= i < |s| && s[i] == u;
          assert init[i] == u;
        }
      }
    }
  }

  /** There are at most as many states as trie nodes, and exactly as many when all are spelled. */
  lemma StateCount(ws: seq<Word>, tr: Trie)
    requires Shape(tr) && forall s :: 0 <= s < |tr.word| ==> InTrie(ws, tr.word[s])
    ensures |tr.word| <= 1 + |NodeSet(ws)|
    ensures Spells(ws, tr) ==> |tr.word| == 1 + |NodeSet(ws)|
  {
    var nodes := tr.word[1..];
    forall i | 0 <= i < |nodes| ensures nodes[i] in NodeSet(ws) {
      assert Hangs(tr, i + 1);
      NodeSetMeaning(ws, tr.word[i + 1]);
    }
    DistinctCount(nodes, NodeSet(ws));
    if Spells(ws, tr) {
      forall u | u in NodeSet(ws) ensures u in nodes {
        NodeSetMeaning(ws, u);
        var s :| 0 <= s < |tr.word| && tr.word[s] == u;
        assert nodes[s - 1] == u;
      }
    }
  }

  ghost function Extend(tr: Trie, p: nat, c: Chr): Trie
    requires p < |tr.word|
  {
    Trie(tr.word + [tr.word[p] + [c]], tr.parent + [p])
  }

  /** A missing entry means the node is new. */
  lemma ExtendShape(tr: Trie, g: seq<int>, p: nat, c: Chr)
    requires GotoOK(tr, g, -1) && p < |tr.word|
    requires 0 <= Cell(p, c) < |g| && g[Cell(p, c)] == -1
    ensures Shape(Extend(tr, p, c))
    ensures tr.word[p] + [c] !in tr.word
  {
    var u := tr.word[p] + [c];
    var tr' := Extend(tr, p, c);
    assert u[..|u| - 1] == tr.word[p];
    forall t: nat | t < |tr.word| ensures tr.word[t] == u ==> g[Cell(p, c)] == t {
      if t > 0 { assert Hangs(tr, t) && Linked(tr, g, t); }
    }
    forall t | 0 < t < |tr'.word| ensures Hangs(tr', t) {
      if t < |tr.word| { assert Hangs(tr, t); }
    }
  }

  /** Rows at and after `n` are untouched. */
  ghost predicate BlankFrom(g: seq<int>, n: nat) {
    forall k :: Cell(n, 0) <= k < |g| ==> g[k] == -1
  }

  lemma ExtendGoto(tr: Trie, g: seq<int>, p: nat, c: Chr)
    requires GotoOK(tr, g, -1) && p < |tr.word| && BlankFrom(g, |tr.word|)
    requires 0 <= Cell(p, c) < |g| && g[Cell(p, c)] == -1
    requires Cell(|tr.word| + 1, 0) <= |g|
    ensures GotoOK(Extend(tr, p, c), g[Cell(p, c) := |tr.word|], -1)
    ensures BlankFrom(g[Cell(p, c) := |tr.word|], |tr.word| + 1)
  {
    ExtendShape(tr, g, p, c);
    var tr', g' := Extend(tr, p, c), g[Cell(p, c) := |tr.word|];
    forall s: nat, d: Chr | s < |tr'.word| ensures Sound(tr', g', s, d, -1) {
      if s < |tr.word| { assert Sound(tr, g, s, d, -1); }
    }
    forall t: nat | 0 < t < |tr'.word| ensures Linked(tr', g', t) {
      if t < |tr.word| { assert Linked(tr, g, t) && Hangs(tr, t); }
    }
  }

  /** The character that starts the first non-empty word. */
  function FirstChar(ws: seq<Word>): Chr {
    if ws == [] then 0 else if ws[0] != [] then ws[0][0] else FirstChar(ws[1..])
  }

  lemma {:induction false} FirstCharAt(ws: seq<Word>, i: nat)
    requires i < |ws| && ws[i] != [] && forall k :: 0 <= k < i ==> ws[k] == []
    ensures FirstChar(ws) == ws[i][0]
  {
    if i == 0 {
    } else {
      FirstCharAt(ws[1..], i - 1);
    }
  }

  /** State 1 is the first node allocated. */
  ghost predicate Numbered(ws: seq<Word>, tr: Trie) {
    |tr.word| > 1 ==> tr.word[1] == [FirstChar(ws)]
  }

  /** The trie after the first `n` words. */
  ghost predicate Growing(ws: seq<Word>, n: nat, tr: Trie, g: seq<int>, out: seq<set<nat>>) {
    && n <= |ws|
    && GotoOK(tr, g, -1) && Numbered(ws, tr)
    && BlankFrom(g, |tr.word|)
    && |tr.word| <= |out|
    && |g| == Cell(|out|, 0)
    && (forall s {:trigger InTrie(ws, tr.word[s])} :: 0 <= s < |tr.word| ==> InTrie(ws, tr.word[s]))
    && (forall s :: 0 <= s < |tr.word| ==> out[s] == Own(ws[..n], tr.word[s]))
    && (forall s :: |tr.word| <= s < |out| ==> out[s] == {})
    && (forall k, j :: 0 <= k < n && 0 <= j <= |ws[k]| ==> ws[k][..j] in tr.word)
  }

  lemma GrowingStart(ws: seq<Word>, g: seq<int>, out: seq<set<nat>>)
    requires |out| >= 1 && |g| == Cell(|out|, 0)
    requires forall k :: 0 <= k < |g| ==> g[k] == -1
    requires forall s :: 0 <= s < |out| ==> out[s] == {}
    ensures Growing(ws, 0, Trie([[]], [0]), g, out)
  {
  }

  lemma GrowingSpells(ws: seq<Word>, tr: Trie, g: seq<int>, out: seq<set<nat>>)
    requires Growing(ws, |ws|, tr, g, out)
    ensures Spells(ws, tr)
  {
    forall u | InTrie(ws, u) ensures u in tr.word {
      if u == [] {
        assert tr.word[0] == u;
      } else {
        var i :| 0 <= i < |ws| && u <= ws[i];
        assert ws[i][..|u|] == u;
      }
    }
  }

  /** There is a row for every node and the root. */
  ghost predicate Fits(ws: seq<Word>, rows: int) {
    |NodeSet(ws)| + 1 <= rows
  }

  /** The inner loop of `buildMatchingMachine`: walk one word, allocating missing nodes, and mark its end. */
  method InsertWord(ws: seq<Word>, i: nat, g: array<int>, out: array<set<nat>>, states: nat, ghost tr: Trie)
    returns (states': nat, ghost tr': Trie)
    requires i < |ws| && states == |tr.word|
    requires Growing(ws, i, tr, g[..], out[..]) && Fits(ws, out.Length)
    modifies g, out
    ensures states' == |tr'.word|
    ensures Growing(ws, i + 1, tr', g[..], out[..])
  {
    var w := ws[i];
    var currentState := 0;
    states', tr' := states, tr;
    assert w[..0] == [];
    for j := 0 to |w|
      invariant states' == |tr'.word| && currentState < states'
      invariant tr'.word[currentState] == w[..j]
      invariant Growing(ws, i, tr', g[..], out[..])
      invariant forall l :: 0 <= l <= j ==> w[..l] in tr'.word
    {
      var ch := w[j];
      ghost var u := w[..j + 1];
      assert u == w[..j] + [ch] && u <= w;
      assert Sound(tr', g[..], currentState, ch, -1);
      if g[Cell(currentState, ch)] == -1 {
        AllocateNode(ws, i, tr', g[..], out[..], currentState, ch);
        g[Cell(currentState, ch)] := states';
        tr' := Extend(tr', currentState, ch);
        states' := states' + 1;
      }
      assert Sound(tr', g[..], currentState, ch, -1);
      currentState := g[Cell(currentState, ch)];
      assert tr'.word[currentState] == u;
    }
    assert w[..|w|] == w;
    ghost var before := out[..];
    out[currentState] := out[currentState] + {i};
    MarkEnd(ws, i, tr', g[..], before, currentState);
  }

  /** The first node is allocated for the first non-empty word. */
  lemma FirstAllocated(ws: seq<Word>, i: nat, tr: Trie, c: Chr)
    requires i < |ws| && tr.word == [[]] && ws[i] != [] && c == ws[i][0]
    requires forall k, j :: 0 <= k < i && 0 <= j <= |ws[k]| ==> ws[k][..j] in tr.word
    ensures c == FirstChar(ws)
  {
    forall k | 0 <= k < i ensures ws[k] == [] {
      assert ws[k][..|ws[k]|] == ws[k];
    }
    FirstCharAt(ws, i);
  }

  lemma AllocateNode(ws: seq<Word>, i: nat, tr: Trie, g: seq<int>, out: seq<set<nat>>, p: nat, c: Chr)
    requires i < |ws| && Growing(ws, i, tr, g, out) && Fits(ws, |out|) && p < |tr.word|
    requires InTrie(ws, tr.word[p] + [c]) && 0 <= Cell(p, c) < |g| && g[Cell(p, c)] == -1
    requires tr.word[p] + [c] <= ws[i]
    ensures Growing(ws, i, Extend(tr, p, c), g[Cell(p, c) := |tr.word|], out)
    ensures forall u :: u in tr.word ==> u in Extend(tr, p, c).word
  {
    var tr' := Extend(tr, p, c);
    ExtendShape(tr, g, p, c);
    StateCount(ws, tr');
    ExtendGoto(tr, g, p, c);
    if |tr.word| == 1 { FirstAllocated(ws, i, tr, c); }
    var u := tr.word[p] + [c];
    assert Own(ws[..i], u) == {} by {
      forall k | 0 <= k < i ensures ws[k] in tr.word {
        assert ws[k][..|ws[k]|] == ws[k];
      }
    }
  }

  lemma MarkEnd(ws: seq<Word>, i: nat, tr: Trie, g: seq<int>, out: seq<set<nat>>, s: nat)
    requires i < |ws| && Growing(ws, i, tr, g, out) && s < |tr.word| && tr.word[s] == ws[i]
    requires forall l :: 0 <= l <= |ws[i]| ==> ws[i][..l] in tr.word
    ensures Growing(ws, i + 1, tr, g, out[s := out[s] + {i}])
  {
    var out' := out[s := out[s] + {i}];
    forall t | 0 <= t < |tr.word| ensures out'[t] == Own(ws[..i + 1], tr.word[t]) {
      assert forall k :: 0 <= k < i ==> ws[..i + 1][k] == ws[..i][k];
      assert ws[..i + 1][i] == ws[i];
    }
  }

  method SumLengths(ws: seq<Word>) returns (maxs: nat)
    ensures maxs == TotalLength(ws)
  {
    maxs := 0;
    for i := 0 to |ws|
      invariant maxs == TotalLength(ws[..i])
    {
      assert ws[..i + 1][..i] == ws[..i];
      maxs := maxs + |ws[i]|;
    }
    assert ws[..|ws|] == ws;
  }

  /** The trie phase: allocate `rows` rows and insert every word. */
  method BuildTrie(ws: seq<Word>, rows: nat)
    returns (g: array<int>, out: array<set<nat>>, states: nat, ghost tr: Trie)
    requires Fits(ws, rows)
    ensures fresh(g) && fresh(out) && out.Length == rows && g.Length == Cell(rows, 0)
    ensures GotoOK(tr, g[..], -1) && Spells(ws, tr) && BlankFrom(g[..], |tr.word|) && Numbered(ws, tr)
    ensures states == |tr.word| <= rows
    ensures forall s :: 0 <= s < |tr.word| ==> out[s] == Own(ws, tr.word[s])
  {
    out := new set<nat>[rows](_ => {});
    g := new int[rows * MAXC](_ => -1);
    states, tr := 1, Trie([[]], [0]);
    GrowingStart(ws, g[..], out[..]);
    for i := 0 to |ws|
      invariant states == |tr.word|
      invariant Growing(ws, i, tr, g[..], out[..])
    {
      states, tr := InsertWord(ws, i, g, out, states, tr);
    }
    GrowingSpells(ws, tr, g[..], out[..]);
    assert ws[..|ws|] == ws;
  }

  /** Fill the missing root entries with the root itself. */
  method CloseRoot(g: array<int>, ghost tr: Trie)
    requires GotoOK(tr, g[..], -1) && g.Length >= MAXC
    modifies g
    ensures GotoOK(tr, g[..], 0)
    ensures BlankFrom(old(g[..]), |tr.word|) ==> BlankFrom(g[..], |tr.word|)
    ensures g[MAXC..] == old(g[MAXC..])
  {
    for ch := 0 to MAXC
      invariant forall k :: 0 <= k < ch ==> g[k] == if old(g[k]) == -1 then 0 else old(g[k])
      invariant forall k :: ch <= k < g.Length ==> g[k] == old(g[k])
    {
      if g[Cell(0, ch)] == -1 {
        g[Cell(0, ch)] := 0;
      }
    }
    ghost var was := old(g[..]);
    forall s: nat, c: Chr | s < |tr.word| ensures Sound(tr, g[..], s, c, 0) {
      assert Sound(tr, was, s, c, -1);
    }
    forall t: nat | 0 < t < |tr.word| ensures Linked(tr, g[..], t) {
      assert Linked(tr, was, t) && Hangs(tr, t);
    }
  }

  /** The words at `i` and `j` share their first `n` characters. */
  ghost predicate Alike(ws: seq<Word>, i: nat, j: nat, n: nat)
    requires i < |ws| && j < |ws|
  {
    n <= |ws[i]| && n <= |ws[j]| && ws[i][..n] == ws[j][..n]
  }

  /** Two words at different places start with the same character. */
  ghost predicate SharedStart(ws: seq<Word>) {
    exists i: nat, j: nat :: i < j < |ws| && Alike(ws, i, j, 1)
  }

  /** Two words share two characters, or two words each start like an earlier one. */
  ghost predicate SharedTwice(ws: seq<Word>) {
    || (exists i: nat, j: nat :: i < j < |ws| && Alike(ws, i, j, 2))
    || (exists i: nat, j: nat, k: nat, l: nat :: i < j < |ws| && k < l < |ws| && j != l &&
          Alike(ws, i, j, 1) && Alike(ws, k, l, 1))
  }

  ghost function Prefixes(w: Word): set<Word> {
    set j: nat | 1 <= j <= |w| :: w[..j]
  }

  lemma {:induction false} PrefixCount(w: Word)
    ensures |Prefixes(w)| == |w|
  {
    if w == [] {
      assert Prefixes(w) == {};
    } else {
      var v := w[..|w| - 1];
      PrefixCount(v);
      assert Prefixes(w) == Prefixes(v) + {w} by {
        assert forall j :: 0 <= j < |w| ==> v[..j] == w[..j];
        assert w[..|w|] == w;
      }
    }
  }

  lemma NodeSetSnoc(ws: seq<Word>, w: Word)
    ensures NodeSet(ws + [w]) == NodeSet(ws) + Prefixes(w)
  {
    var all := ws + [w];
    assert all[..|ws|] == ws && all[|ws|] == w;
    forall u | u in NodeSet(ws) + Prefixes(w) ensures u in NodeSet(all) {
      if u in NodeSet(ws) {
        var i: nat, j: nat :| i < |ws| && 1 <= j <= |ws[i]| && u == ws[i][..j];
        assert all[i][..j] == u;
      } else {
        var j: nat :| 1 <= j <= |w| && u == w[..j];
        assert all[|ws|][..j] == u;
      }
    }
  }

  /** Some word shares its first `n` characters with `w`. */
  ghost predicate StartsLike(ws: seq<Word>, w: Word, n: nat) {
    n <= |w| && exists i :: 0 <= i < |ws| && w[..n] <= ws[i]
  }

  lemma AlikeSnoc(ws: seq<Word>, w: Word, n: nat)
    ensures forall i: nat, j: nat :: i < |ws| && j < |ws| ==> Alike(ws + [w], i, j, n) == Alike(ws, i, j, n)
    ensures (exists i: nat :: i < |ws| && Alike(ws + [w], i, |ws|, n)) <==> StartsLike(ws, w, n)
  {
    var all := ws + [w];
    assert all[|ws|] == w && forall i :: 0 <= i < |ws| ==> all[i] == ws[i];
    if StartsLike(ws, w, n) {
      var i :| 0 <= i < |ws| && w[..n] <= ws[i];
      assert Alike(all, i, |ws|, n);
    }
    if i: nat :| i < |ws| && Alike(all, i, |ws|, n) {
      assert w[..n] <= ws[i];
    }
  }

  lemma SharedStartSnoc(ws: seq<Word>, w: Word)
    ensures SharedStart(ws + [w]) <==> SharedStart(ws) || StartsLike(ws, w, 1)
  {
    AlikeSnoc(ws, w, 1);
  }

  lemma SharedTwiceSnoc(ws: seq<Word>, w: Word)
    ensures SharedTwice(ws + [w]) <==>
              SharedTwice(ws) || StartsLike(ws, w, 2) || (SharedStart(ws) && StartsLike(ws, w, 1))
  {
    AlikeSnoc(ws, w, 1);
    AlikeSnoc(ws, w, 2);
  }

  /** A new word brings a node again exactly when another word starts like it, and two nodes exactly
      when another shares two characters. */
  lemma CommonPrefix(ws: seq<Word>, w: Word)
    ensures |NodeSet(ws) * Prefixes(w)| >= 1 <==> StartsLike(ws, w, 1)
    ensures |NodeSet(ws) * Prefixes(w)| >= 2 <==> StartsLike(ws, w, 2)
  {
    var both := NodeSet(ws) * Prefixes(w);
    if StartsLike(ws, w, 1) { StartIsShared(ws, w, 1); }
    if StartsLike(ws, w, 2) { TwoAreShared(ws, w); }
    if both != {} {
      var u :| u in both;
      StartsLonger(ws, w, |u|, 1);
      if both - {u} != {} {
        var v :| v in both - {u};
        StartsLonger(ws, w, if |u| < |v| then |v| else |u|, 2);
      } else {
        assert both == {u};
      }
    }
  }

  lemma StartIsShared(ws: seq<Word>, w: Word, n: nat)
    requires StartsLike(ws, w, n) && 1 <= n
    ensures n <= |w| && w[..n] in NodeSet(ws) * Prefixes(w)
  {
    NodeSetMeaning(ws, w[..n]);
  }

  lemma TwoAreShared(ws: seq<Word>, w: Word)
    requires StartsLike(ws, w, 2)
    ensures |NodeSet(ws) * Prefixes(w)| >= 2
  {
    assert w[..1] <= w[..2] && StartsLike(ws, w, 1);
    StartIsShared(ws, w, 1);
    StartIsShared(ws, w, 2);
    SubsetCount({w[..1], w[..2]}, NodeSet(ws) * Prefixes(w));
  }

  lemma StartsLonger(ws: seq<Word>, w: Word, n: nat, k: nat)
    requires n <= |w| && w[..n] in NodeSet(ws) * Prefixes(w) && k <= n
    ensures StartsLike(ws, w, k)
  {
    NodeSetMeaning(ws, w[..n]);
    assert w[..k] <= w[..n];
  }

  /** `states` is at most one more than the summed lengths; `maxs_` rows hold every state exactly when
      two words start with the same character, and one row more exactly when a node is shared twice. */
  lemma {:induction false} NodeCount(ws: seq<Word>)
    ensures |NodeSet(ws)| <= TotalLength(ws)
    ensures |NodeSet(ws)| + 1 <= TotalLength(ws) <==> SharedStart(ws)
    ensures |NodeSet(ws)| + 2 <= TotalLength(ws) <==> SharedTwice(ws)
  {
    if ws == [] {
      assert NodeSet(ws) == {};
    } else {
      var init, w := ws[..|ws| - 1], ws[|ws| - 1];
      assert ws == init + [w];
      NodeCount(init);
      PrefixCount(w);
      NodeSetSnoc(init, w);
      SharedStartSnoc(init, w);
      SharedTwiceSnoc(init, w);
      CommonPrefix(init, w);
      UnionCount(NodeSet(init), Prefixes(w));
    }
  }

  /** The program's own allocation, `maxs_` rows: it holds the states exactly when two words start
      alike, and also the row read past the last exactly when a node is shared twice. */
  lemma AllocationFits(ws: seq<Word>)
    ensures Fits(ws, TotalLength(ws)) <==> SharedStart(ws)
    ensures Fits(ws, TotalLength(ws) - 1) <==> SharedTwice(ws)
    ensures Fits(ws, TotalLength(ws) + 1)
  {
    NodeCount(ws);
  }

  /** A single word already has more states than `maxs_` rows. */
  lemma SingleWordOverrun(w: Word)
    ensures !Fits([w], TotalLength([w]))
  {
    AllocationFits([w]);
  }

  /** `maxs_` is the length of all words put end to end. */
  lemma {:induction false} TotalLengthConcat(a: seq<Word>, b: seq<Word>, w: Word)
    ensures TotalLength(a + b) == TotalLength(a) + TotalLength(b)
    ensures TotalLength([w]) == |w| && TotalLength([]) == 0
  {
    assert [w][..0] == [];
    if b == [] {
      assert a + b == a;
    } else {
      TotalLengthConcat(a, b[..|b| - 1], w);
      assert (a + b)[..|a + b| - 1] == a + b[..|b| - 1];
    }
  }

  lemma UnionCount(a: set<Word>, b: set<Word>)
    ensures |a + b| == |a| + |b| - |a * b|
  {
  }
}
