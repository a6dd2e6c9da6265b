/** What the Aho-Corasick tables mean, stated on words alone. */
module TrieSpec {
  import opened Strings

  /** `u` is the string of a trie node: the root, or a prefix of some word. */
  ghost predicate InTrie(ws: seq<Word>, u: Word) {
    u == [] || exists i :: 0 <= i < |ws| && u <= ws[i]
  }

  lemma InTriePrefix(ws: seq<Word>, u: Word, c: Chr)
    requires InTrie(ws, u + [c])
    ensures InTrie(ws, u)
  {
    var i :| 0 <= i < |ws| && u + [c] <= ws[i];
    assert u <= ws[i];
  }

  /** The longest suffix of `u` that is a trie node. */
  ghost function Longest(ws: seq<Word>, u: Word): (v: Word)
    ensures InTrie(ws, v) && IsSuffix(v, u)
  {
    if InTrie(ws, u) then u else
      TailIsSuffix(Longest(ws, u[1..]), u);
      Longest(ws, u[1..])
  }

  lemma {:induction false} LongestIsMaximal(ws: seq<Word>, u: Word, x: Word)
    requires InTrie(ws, x) && IsSuffix(x, u)
    ensures IsSuffix(x, Longest(ws, u))
  {
    if !InTrie(ws, u) {
      SuffixTail(x, u);
      LongestIsMaximal(ws, u[1..], x);
    }
  }

  /** A trie node that is a suffix of `u` and has every such node as a suffix is `Longest`. */
  lemma LongestUnique(ws: seq<Word>, u: Word, v: Word)
    requires InTrie(ws, v) && IsSuffix(v, u)
    requires forall x :: InTrie(ws, x) && IsSuffix(x, u) ==> |x| <= |v|
    ensures v == Longest(ws, u)
  {
    LongestIsMaximal(ws, u, v);
    assert IsSuffix(Longest(ws, u), u);
  }

  /** The automaton may forget everything but its current node. */
  lemma LongestStep(ws: seq<Word>, u: Word, c: Chr)
    ensures Longest(ws, u + [c]) == Longest(ws, Longest(ws, u) + [c])
  {
    var l := Longest(ws, u);
    var v := Longest(ws, l + [c]);
    SuffixSnoc(l, u, c);
    SuffixTransitive(v, l + [c], u + [c]);
    forall x | InTrie(ws, x) && IsSuffix(x, u + [c])
      ensures |x| <= |v|
    {
      if x != [] {
        SuffixUnsnoc(x, u, c);
        var y := x[..|x| - 1];
        InTriePrefix(ws, y, c);
        LongestIsMaximal(ws, u, y);
        SuffixSnoc(y, l, c);
        LongestIsMaximal(ws, l + [c], x);
      }
    }
    LongestUnique(ws, u + [c], v);
  }

  /** The failure node of a non-root node. */
  ghost function Failure(ws: seq<Word>, u: Word): (v: Word)
    requires u != []
    ensures InTrie(ws, v) && |v| < |u|
  {
    Longest(ws, u[1..])
  }

  /** When the goto entry is missing, following the failure link does not change the target. */
  lemma FailureStep(ws: seq<Word>, u: Word, c: Chr)
    requires u != [] && !InTrie(ws, u + [c])
    ensures Longest(ws, u + [c]) == Longest(ws, Failure(ws, u) + [c])
  {
    assert (u + [c])[1..] == u[1..] + [c];
    LongestStep(ws, u[1..], c);
  }

  /** The failure node of a child is the target of the parent's failure node. */
  lemma FailureOfChild(ws: seq<Word>, u: Word, c: Chr)
    requires u != []
    ensures Failure(ws, u + [c]) == Longest(ws, Failure(ws, u) + [c])
  {
    assert (u + [c])[1..] == u[1..] + [c];
    LongestStep(ws, u[1..], c);
  }

  /** The words spelled by node `u` itself. */
  ghost function Own(ws: seq<Word>, u: Word): set<nat> {
    set k: nat | k < |ws| && ws[k] == u
  }

  /** What a multi-pattern matcher should report after reading `text`. */
  ghost function Naive(ws: seq<Word>, text: Word): set<nat> {
    set k: nat | k < |ws| && IsSuffix(ws[k], text)
  }

  /** What the output merge leaves at node `u`: depth-one nodes are not merged with the root. */
  ghost function Merged(ws: seq<Word>, u: Word): set<nat>
    decreases |u|
  {
    if |u| < 2 then Own(ws, u) else Own(ws, u) + Merged(ws, Failure(ws, u))
  }

  /** Empty words survive the merge exactly where the last character starts no word. */
  ghost predicate ReportsEmpty(ws: seq<Word>, u: Word) {
    u == [] || !InTrie(ws, u[|u| - 1..])
  }

  /** The merged output is the naive answer, except for empty words. */
  lemma {:induction false} MergedMeaning(ws: seq<Word>, u: Word, k: nat)
    requires InTrie(ws, u) && k < |ws|
    ensures k in Merged(ws, u) <==> IsSuffix(ws[k], u) && (ws[k] != [] || ReportsEmpty(ws, u))
    decreases |u|
  {
    var w := ws[k];
    assert InTrie(ws, w) by { assert w <= ws[k]; }
    if |u| == 1 {
      assert u[0..] == u;
      assert IsSuffix(w, u) && w != [] ==> w == u by {
        if IsSuffix(w, u) && |w| == 1 { assert u[0..] == w; }
      }
    } else if |u| >= 2 {
      var v := Failure(ws, u);
      MergedMeaning(ws, v, k);
      TailIsSuffix(v, u);
      if IsSuffix(w, v) { SuffixTransitive(w, v, u); }
      if IsSuffix(w, u) && w != u {
        SuffixTail(w, u);
        LongestIsMaximal(ws, u[1..], w);
      }
      if w == [] { EmptyThroughFailure(ws, u); }
    }
  }

  lemma EmptyThroughFailure(ws: seq<Word>, u: Word)
    requires |u| >= 2
    ensures ReportsEmpty(ws, u) <==> ReportsEmpty(ws, Failure(ws, u))
  {
    var v := Failure(ws, u);
    var last := u[|u| - 1..];
    if v != [] {
      assert v[|v| - 1..] == last;
    } else if InTrie(ws, last) {
      assert IsSuffix(last, u[1..]);
      LongestIsMaximal(ws, u[1..], last);
    }
  }
}
