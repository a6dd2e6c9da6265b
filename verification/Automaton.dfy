/** The Aho-Corasick tables as sequences, and what each build phase has to establish. */
module Automaton {
  import opened Strings
  import opened TrieSpec

  /** Index of column `c` in row `s` of the flat goto table. */
  function Cell(s: int, c: int): int {
    s * MAXC + c
  }

  /** Ghost picture of a trie: the word of each state and the state it hangs from. */
  datatype Trie = Trie(word: seq<Word>, parent: seq<nat>)

  ghost predicate Injective(word: seq<Word>) {
    forall s, t :: 0 <= s < |word| && 0 <= t < |word| && word[s] == word[t] ==> s == t
  }

  /** State `t` hangs from `parent[t]` by the last character of its word. */
  ghost predicate Hangs(tr: Trie, t: nat)
    requires 0 < t < |tr.word| == |tr.parent|
  {
    var p := tr.parent[t];
    var u := tr.word[t];
    p < t && u != [] && tr.word[p] == u[..|u| - 1]
  }

  ghost predicate Shape(tr: Trie) {
    && |tr.word| == |tr.parent| > 0
    && tr.word[0] == []
    && Injective(tr.word)
    && forall t :: 0 < t < |tr.word| ==> Hangs(tr, t)
  }

  /** Entry (s, c) leads to the child it claims; a missing child is -1, or `rootNone` at the root. */
  ghost predicate Sound(tr: Trie, g: seq<int>, s: nat, c: Chr, rootNone: int)
    requires s < |tr.word|
  {
    && 0 <= Cell(s, c) < |g|
    && var e := g[Cell(s, c)];
       e == (if s == 0 then rootNone else -1) || (0 < e < |tr.word| && tr.word[e] == tr.word[s] + [c])
  }

  /** State `t` is reached from its parent. */
  ghost predicate Linked(tr: Trie, g: seq<int>, t: nat)
    requires Shape(tr) && 0 < t < |tr.word|
  {
    var k := Cell(tr.parent[t], tr.word[t][|tr.word[t]| - 1]);
    0 <= k < |g| && g[k] == t
  }

  /** The goto table holds exactly the edges of the trie; missing root entries are `rootNone`. */
  ghost predicate GotoOK(tr: Trie, g: seq<int>, rootNone: int) {
    && Shape(tr)
    && (forall s: nat, c: Chr :: s < |tr.word| ==> Sound(tr, g, s, c, rootNone))
    && (forall t: nat :: 0 < t < |tr.word| ==> Linked(tr, g, t))
  }

  /** The states are exactly the trie nodes of `ws`. */
  ghost predicate Spells(ws: seq<Word>, tr: Trie) {
    && (forall s {:trigger InTrie(ws, tr.word[s])} :: 0 <= s < |tr.word| ==> InTrie(ws, tr.word[s]))
    && (forall u :: InTrie(ws, u) ==> u in tr.word)
  }

  /** An entry is missing exactly when the extended word is no trie node. */
  lemma GotoMeaning(ws: seq<Word>, tr: Trie, g: seq<int>, rootNone: int, s: nat, c: Chr)
    requires GotoOK(tr, g, rootNone) && Spells(ws, tr) && s < |tr.word| && rootNone <= 0
    ensures 0 <= Cell(s, c) < |g|
    ensures var e := g[Cell(s, c)];
            if InTrie(ws, tr.word[s] + [c])
            then 0 < e < |tr.word| && tr.word[e] == tr.word[s] + [c]
            else e == if s == 0 then rootNone else -1
  {
    assert Sound(tr, g, s, c, rootNone);
    var u := tr.word[s] + [c];
    if InTrie(ws, u) {
      var t :| 0 <= t < |tr.word| && tr.word[t] == u;
      assert Hangs(tr, t) && Linked(tr, g, t);
      assert u[..|u| - 1] == tr.word[s];
      assert tr.parent[t] == s;
    }
  }

  /** The finished tables. */
  ghost predicate FailOK(ws: seq<Word>, tr: Trie, f: seq<int>, s: nat)
    requires s < |tr.word|
  {
    && s < |f|
    && tr.word[s] != []
    && 0 <= f[s] < |tr.word|
    && tr.word[f[s]] == Failure(ws, tr.word[s])
  }

  /** The links of all states of depth at most `d` are final. */
  ghost predicate FinalTo(ws: seq<Word>, tr: Trie, f: seq<int>, d: nat) {
    forall s: nat {:trigger FailOK(ws, tr, f, s)} :: 0 < s < |tr.word| && |tr.word[s]| <= d ==> FailOK(ws, tr, f, s)
  }

  ghost predicate OutOK(ws: seq<Word>, tr: Trie, out: seq<set<nat>>, s: nat)
    requires s < |tr.word|
  {
    s < |out| && out[s] == Merged(ws, tr.word[s])
  }

  ghost predicate Complete(ws: seq<Word>, tr: Trie, g: seq<int>, f: seq<int>, out: seq<set<nat>>) {
    && GotoOK(tr, g, 0)
    && Spells(ws, tr)
    && (forall s: nat :: 0 < s < |tr.word| ==> FailOK(ws, tr, f, s))
    && (forall s: nat :: s < |tr.word| ==> OutOK(ws, tr, out, s))
  }

  /** At `s` there is no entry for `c`, so the failure link is followed, to a shallower state. */
  ghost predicate Follows(tr: Trie, g: seq<int>, f: seq<int>, s: nat, c: Chr)
    requires s < |tr.word|
  {
    && 0 <= Cell(s, c) < |g| && g[Cell(s, c)] == -1
    && s < |f| && 0 <= f[s] < |tr.word| && |tr.word[f[s]]| < |tr.word[s]|
  }

  /** The number of failure links followed from `s` on `c`. */
  ghost function Links(tr: Trie, g: seq<int>, f: seq<int>, s: nat, c: Chr): nat
    requires s < |tr.word|
    decreases |tr.word[s]|
  {
    if Follows(tr, g, f, s, c) then 1 + Links(tr, g, f, f[s], c) else 0
  }

  /** The state reached at the end of those links. */
  ghost function Target(tr: Trie, g: seq<int>, f: seq<int>, s: nat, c: Chr): int
    requires s < |tr.word|
    decreases |tr.word[s]|
  {
    if Follows(tr, g, f, s, c) then Target(tr, g, f, f[s], c)
    else if 0 <= Cell(s, c) < |g| then g[Cell(s, c)]
    else -1
  }

  /** `findNextState` (CPU and GPU): follow failure links until the goto entry is defined.
      `hops` counts the links followed. */
  method FindNextState(g: array<int>, f: array<int>, currentState: nat, ch: Chr,
                       ghost ws: seq<Word>, ghost tr: Trie)
    returns (next: nat, ghost hops: nat)
    requires GotoOK(tr, g[..], 0) && Spells(ws, tr) && currentState < |tr.word|
    requires FinalTo(ws, tr, f[..], |tr.word[currentState]|)
    ensures next < |tr.word|
    ensures tr.word[next] == Longest(ws, tr.word[currentState] + [ch])
    ensures next == Target(tr, g[..], f[..], currentState, ch) && hops == Links(tr, g[..], f[..], currentState, ch)
    ensures |tr.word[next]| + hops <= |tr.word[currentState]| + 1
  {
    var answer := currentState;
    hops := 0;
    ghost var gs, fs := g[..], f[..];
    GotoMeaning(ws, tr, gs, 0, answer, ch);
    while g[Cell(answer, ch)] == -1
      invariant answer < |tr.word| && 0 <= Cell(answer, ch) < |gs|
      invariant OnTheWay(ws, tr, gs, fs, currentState, ch, answer, hops)
      decreases |tr.word[answer]|
    {
      LinkOnTheWay(ws, tr, gs, fs, currentState, ch, answer, hops);
      answer := f[answer];
      hops := hops + 1;
    }
    EntryReached(ws, tr, gs, fs, answer, ch);
    next := g[Cell(answer, ch)];
  }

  /** From state `s` the loop has come to `at` over `hops` links, each at the cost of a character of depth. */
  ghost predicate OnTheWay(ws: seq<Word>, tr: Trie, g: seq<int>, f: seq<int>, s: nat, c: Chr, at: nat, hops: nat)
    requires s < |tr.word| && at < |tr.word|
  {
    && |tr.word[at]| + hops <= |tr.word[s]|
    && Target(tr, g, f, at, c) == Target(tr, g, f, s, c)
    && hops + Links(tr, g, f, at, c) == Links(tr, g, f, s, c)
    && Longest(ws, tr.word[at] + [c]) == Longest(ws, tr.word[s] + [c])
  }

  lemma LinkOnTheWay(ws: seq<Word>, tr: Trie, g: seq<int>, f: seq<int>, s: nat, c: Chr, at: nat, hops: nat)
    requires GotoOK(tr, g, 0) && Spells(ws, tr) && s < |tr.word| && at < |tr.word| && FinalTo(ws, tr, f, |tr.word[s]|)
    requires OnTheWay(ws, tr, g, f, s, c, at, hops) && 0 <= Cell(at, c) < |g| && g[Cell(at, c)] == -1
    ensures at < |f| && 0 <= f[at] < |tr.word| && |tr.word[f[at]]| < |tr.word[at]| && 0 <= Cell(f[at], c) < |g|
    ensures OnTheWay(ws, tr, g, f, s, c, f[at], hops + 1)
  {
    assert at > 0 ==> FailOK(ws, tr, f, at);
    FollowLink(ws, tr, g, f, at, c);
  }

  /** One failure link: the target stays, the depth falls, one link fewer is left. */
  lemma FollowLink(ws: seq<Word>, tr: Trie, g: seq<int>, f: seq<int>, s: nat, c: Chr)
    requires GotoOK(tr, g, 0) && Spells(ws, tr) && s < |tr.word| && (s > 0 ==> FailOK(ws, tr, f, s))
    requires 0 <= Cell(s, c) < |g| && g[Cell(s, c)] == -1
    ensures s < |f| && 0 <= f[s] < |tr.word| && |tr.word[f[s]]| < |tr.word[s]|
    ensures 0 <= Cell(f[s], c) < |g|
    ensures Target(tr, g, f, s, c) == Target(tr, g, f, f[s], c)
    ensures Links(tr, g, f, s, c) == 1 + Links(tr, g, f, f[s], c)
    ensures Longest(ws, tr.word[s] + [c]) == Longest(ws, tr.word[f[s]] + [c])
  {
    GotoMeaning(ws, tr, g, 0, s, c);
    FailureStep(ws, tr.word[s], c);
    GotoMeaning(ws, tr, g, 0, f[s], c);
  }

  /** Where an entry is defined it is the state of the longest suffix. */
  lemma EntryReached(ws: seq<Word>, tr: Trie, g: seq<int>, f: seq<int>, s: nat, c: Chr)
    requires GotoOK(tr, g, 0) && Spells(ws, tr) && s < |tr.word|
    requires 0 <= Cell(s, c) < |g| && g[Cell(s, c)] != -1
    ensures var e := g[Cell(s, c)];
            && 0 <= e < |tr.word| && tr.word[e] == Longest(ws, tr.word[s] + [c])
            && |tr.word[e]| <= |tr.word[s]| + 1
            && Target(tr, g, f, s, c) == e && Links(tr, g, f, s, c) == 0
  {
    GotoMeaning(ws, tr, g, 0, s, c);
    if !InTrie(ws, tr.word[s] + [c]) {
      assert tr.word[0] + [c] == [c] && [c][1..] == [];
    }
  }
}
