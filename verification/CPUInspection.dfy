/** The CPU matcher: `buildMatchingMachine` and the scan loop of `exec`. */
module CPUInspectionModule {
  import opened Strings
  import opened TrieSpec
  import opened Automaton
  import opened TrieGrowth
  import opened SearchQueue
  import opened FailureSearch

  /** What the scan sees after reading `text`: the output set of the state it is in. */
  ghost function Reported(ws: seq<Word>, text: Word): set<nat> {
    Merged(ws, Longest(ws, text))
  }

  /** The output sets met while reading `text`, one per character. */
  ghost function Scan(ws: seq<Word>, text: Word): (hits: seq<set<nat>>)
    ensures |hits| == |text|
  {
    if text == [] then [] else Scan(ws, text[..|text| - 1]) + [Reported(ws, text)]
  }

  lemma ScanSnoc(ws: seq<Word>, text: Word, c: Chr)
    ensures Scan(ws, text + [c]) == Scan(ws, text) + [Reported(ws, text + [c])]
  {
    assert (text + [c])[..|text|] == text;
  }

  lemma {:induction false} ScanAt(ws: seq<Word>, text: Word, e: nat)
    requires 1 <= e <= |text|
    ensures Scan(ws, text)[e - 1] == Reported(ws, text[..e])
  {
    if e == |text| {
      assert text[..e] == text;
    } else {
      var init := text[..|text| - 1];
      assert Scan(ws, text)[e - 1] == Scan(ws, init)[e - 1];
      assert Scan(ws, init)[e - 1] == Reported(ws, init[..e]) by { ScanAt(ws, init, e); }
      assert init[..e] == text[..e];
    }
  }

  /** The finished tables of `ws`. */
  ghost predicate Loaded(ws: seq<Word>, tr: Trie, g: array<int>, f: array<int>, out: array<set<nat>>)
    reads g, f, out
  {
    Complete(ws, tr, g[..], f[..], out[..])
  }

  /** The automaton is in the state of the longest suffix of `text` that starts a word. */
  ghost predicate AtText(ws: seq<Word>, tr: Trie, state: nat, text: Word) {
    state < |tr.word| && tr.word[state] == Longest(ws, text)
  }

  /** One turn of the scan loop (CPU and GPU), from the state of `text`. */
  method Advance(g: array<int>, f: array<int>, out: array<set<nat>>, currentState: nat, ch: Chr,
                 ghost ws: seq<Word>, ghost tr: Trie, ghost text: Word)
    returns (next: nat, hit: set<nat>, ghost hops: nat)
    requires Loaded(ws, tr, g, f, out) && AtText(ws, tr, currentState, text)
    ensures AtText(ws, tr, next, text + [ch]) && hit == Reported(ws, text + [ch])
    ensures next == Target(tr, g[..], f[..], currentState, ch) && hops == Links(tr, g[..], f[..], currentState, ch)
    ensures |tr.word[next]| + hops <= |tr.word[currentState]| + 1
  {
    next, hops := FindNextState(g, f, currentState, ch, ws, tr);
    ghost var u := tr.word[next];
    assert u == Longest(ws, text + [ch]) by { LongestStep(ws, text, ch); }
    assert out[..][next] == Merged(ws, u) by { assert OutOK(ws, tr, out[..], next); }
    hit := out[next];
  }

  /** The state the tables lead to over `text`, and the failure links followed on the way. */
  ghost function StateAfter(tr: Trie, g: seq<int>, f: seq<int>, text: Word): int {
    if text == [] then 0
    else
      var s := StateAfter(tr, g, f, text[..|text| - 1]);
      if 0 <= s < |tr.word| then Target(tr, g, f, s, text[|text| - 1]) else -1
  }

  ghost function LinksOver(tr: Trie, g: seq<int>, f: seq<int>, text: Word): nat {
    if text == [] then 0
    else
      var s := StateAfter(tr, g, f, text[..|text| - 1]);
      LinksOver(tr, g, f, text[..|text| - 1])
      + if 0 <= s < |tr.word| then Links(tr, g, f, s, text[|text| - 1]) else 0
  }

  lemma StepOver(tr: Trie, g: seq<int>, f: seq<int>, text: Word, c: Chr, s: nat)
    requires s < |tr.word| && s == StateAfter(tr, g, f, text)
    ensures StateAfter(tr, g, f, text + [c]) == Target(tr, g, f, s, c)
    ensures LinksOver(tr, g, f, text + [c]) == LinksOver(tr, g, f, text) + Links(tr, g, f, s, c)
  {
    assert (text + [c])[..|text|] == text;
  }

  /** The trie is built and closed: the search can start, with the rows that the bound needs. */
  lemma ReadyToSearch(ws: seq<Word>, tr: Trie, g: seq<int>, f: seq<int>, out: seq<set<nat>>, last: nat)
    requires GotoOK(tr, g, 0) && Spells(ws, tr) && Numbered(ws, tr) && BlankFrom(g, |tr.word|)
    requires |tr.word| <= |out| == |f| && |g| == Cell(|out|, 0) && Unlinked(tr, f)
    requires forall s :: 0 <= s < |tr.word| ==> out[s] == Own(ws, tr.word[s])
    requires last == MAXC - 1 || (last == MAXC && NulClear(ws) && Fits(ws, |out| - 1))
    ensures Searching(ws, tr, g, f, out, [0], 0, 0) && BoundOK(ws, tr, |out|, last)
    ensures Table(ws, tr, g, last) && |tr.word| == 1 + |NodeSet(ws)|
  {
    StateCount(ws, tr);
    SearchStart(ws, tr, g, f, out);
  }

  class CPUInspection {
    var maxs: nat
    var outs: array<set<nat>>
    var f: array<int>
    var g: array<int>

    ghost var words: seq<Word>
    ghost var trie: Trie

    ghost predicate Valid()
      reads this, outs, f, g
    {
      Loaded(words, trie, g, f, outs)
    }

    constructor ()
    {
      maxs := 0;
      outs, f, g := new set<nat>[0], new int[0], new int[0];
      words, trie := [], Trie([], []);
    }

    /** Builds the tables in `maxs_ + slack` rows, expanding states up to column `last`. The program has
        `slack` 0 and `last` MAXC, one column past the row. `order` is the dequeue order of the
        breadth-first search, the root put first. */
    method BuildMatchingMachine(ws: seq<Word>, slack: nat, last: nat) returns (states: nat, ghost order: seq<nat>)
      requires Fits(ws, TotalLength(ws) + slack)
      requires last == MAXC - 1 || (last == MAXC && NulClear(ws) && Fits(ws, TotalLength(ws) + slack - 1))
      modifies this
      ensures Valid() && words == ws && fresh(outs) && fresh(f) && fresh(g)
      ensures states == |trie.word| == 1 + |NodeSet(ws)|
      ensures Unlinked(trie, f[..]) && maxs == TotalLength(ws) && outs.Length == f.Length == maxs + slack && g.Length == Cell(outs.Length, 0)
      ensures Table(ws, trie, g[..], last) && Dequeues(g[..], order, last)
      ensures Ordered(trie, order) && forall s: nat :: s < |trie.word| ==> Among(order, |order|, s)
    {
      maxs := SumLengths(ws);
      words := ws;
      g, outs, states, trie := BuildTrie(ws, maxs + slack);
      f := new int[maxs + slack](_ => -1);
      CloseRoot(g, trie);
      ReadyToSearch(ws, trie, g[..], f[..], outs[..], last);
      ghost var gs := g[..];
      order := BuildFailures(g, f, outs, last, ws, trie);
    }

    /** The scan loop. `hits[i]` records `out_[currentState]` after character i, which the
        program computes and discards; `hops` counts the failure links followed. */
    method Exec(payload: Word) returns (hits: seq<set<nat>>, ghost hops: nat)
      requires Valid()
      ensures hits == Scan(words, payload)
      ensures hops == LinksOver(trie, g[..], f[..], payload) && hops <= |payload|
    {
      var currentState: nat := 0;
      hits, hops := [], 0;
      ghost var gs, fs := g[..], f[..];
      for i := 0 to |payload|
        invariant Valid() && g[..] == gs && f[..] == fs
        invariant AtText(words, trie, currentState, payload[..i]) && currentState == StateAfter(trie, gs, fs, payload[..i])
        invariant hits == Scan(words, payload[..i]) && hops == LinksOver(trie, gs, fs, payload[..i])
        invariant |trie.word[currentState]| + hops <= i
      {
        ghost var seen := payload[..i];
        var ch := payload[i];
        TakeSnoc(payload, i);
        ScanSnoc(words, seen, ch);
        StepOver(trie, gs, fs, seen, ch, currentState);
        var hit;
        ghost var hops';
        currentState, hit, hops' := Advance(g, f, outs, currentState, ch, words, trie, seen);
        hops := hops + hops';
        hits := hits + [hit];
      }
      assert payload[..|payload|] == payload;
    }
  }

  /** The scan reports exactly the words that end here, save that empty words are reported
      only where the last character starts no word. */
  lemma ReportedMeaning(ws: seq<Word>, text: Word, k: nat)
    requires k < |ws|
    ensures k in Reported(ws, text) <==> IsSuffix(ws[k], text) && (ws[k] != [] || ReportsEmpty(ws, text))
  {
    var v := Longest(ws, text);
    assert InTrie(ws, ws[k]) by { assert ws[k] <= ws[k]; }
    MergedMeaning(ws, v, k);
    if IsSuffix(ws[k], v) { SuffixTransitive(ws[k], v, text); }
    if IsSuffix(ws[k], text) { LongestIsMaximal(ws, text, ws[k]); }
    if text != [] {
      var last := text[|text| - 1..];
      if v != [] {
        assert v[|v| - 1..] == last;
      } else if InTrie(ws, last) {
        LongestIsMaximal(ws, text, last);
      }
    }
  }

  lemma {:induction false} MergedIndices(ws: seq<Word>, u: Word)
    ensures forall k :: k in Merged(ws, u) ==> k < |ws|
    decreases |u|
  {
    if |u| < 2 {
    } else {
      MergedIndices(ws, Failure(ws, u));
    }
  }

  /** No word is empty, or every word is. */
  predicate Unmixed(ws: seq<Word>) {
    (forall k :: 0 <= k < |ws| ==> ws[k] != []) || (forall k :: 0 <= k < |ws| ==> ws[k] == [])
  }

  /** The scan equals naive multi-pattern search on every text exactly when the list does not
      mix empty and non-empty words. */
  lemma ScanIsNaive(ws: seq<Word>)
    ensures (forall text: Word :: text != [] ==> Reported(ws, text) == Naive(ws, text))
       <==> Unmixed(ws)
  {
    if Unmixed(ws) {
      forall text: Word | text != [] ensures Reported(ws, text) == Naive(ws, text) { UnmixedIsNaive(ws, text); }
    } else {
      var a :| 0 <= a < |ws| && ws[a] == [];
      var b :| 0 <= b < |ws| && ws[b] != [];
      var text := ws[b][..1];
      assert text != [] && Reported(ws, text) != Naive(ws, text) by { EmptyWordMissed(ws, a, b); }
    }
  }

  lemma UnmixedIsNaive(ws: seq<Word>, text: Word)
    requires Unmixed(ws) && text != []
    ensures Reported(ws, text) == Naive(ws, text)
  {
    var hit, naive := Reported(ws, text), Naive(ws, text);
    assert forall k :: k in hit ==> k < |ws| by { MergedIndices(ws, Longest(ws, text)); }
    forall k: nat | k < |ws| ensures k in hit <==> k in naive {
      assert k in hit <==> IsSuffix(ws[k], text) && (ws[k] != [] || ReportsEmpty(ws, text)) by { ReportedMeaning(ws, text, k); }
      if ws[k] == [] { NoStart(ws, text); }
    }
    assert hit == naive;
  }

  /** When all words are empty no character starts one. */
  lemma NoStart(ws: seq<Word>, text: Word)
    requires (forall k :: 0 <= k < |ws| ==> ws[k] == []) && text != []
    ensures ReportsEmpty(ws, text)
  {
  }

  /** The text made of another word's first character misses an empty word. */
  lemma EmptyWordMissed(ws: seq<Word>, a: nat, b: nat)
    requires a < |ws| && ws[a] == [] && b < |ws| && ws[b] != []
    ensures a in Naive(ws, ws[b][..1]) && a !in Reported(ws, ws[b][..1])
  {
    assert ws[b][..1] <= ws[b];
    SingleMissed(ws, a, ws[b][..1]);
  }

  lemma SingleMissed(ws: seq<Word>, a: nat, text: Word)
    requires a < |ws| && ws[a] == [] && |text| == 1 && InTrie(ws, text)
    ensures a in Naive(ws, text) && a !in Reported(ws, text)
  {
    var hit := Reported(ws, text);
    assert a !in hit by {
      ReportedMeaning(ws, text, a);
      assert text[0..] == text;
    }
    assert IsSuffix(ws[a], text);
  }
}
