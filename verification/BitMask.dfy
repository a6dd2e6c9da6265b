/** The program keeps an output set in the bits of an int: `|= 1 << i` marks word i, `|=` merges two
    sets, `!= 0` asks whether any word is reported. For up to 32 words those are the set operations. */
module BitMask {
  import opened Strings
  import opened TrieSpec
  import opened Automaton

  type Mask = bv32

  /** `1 << i`. */
  function Bit(i: nat): Mask
    requires i < 32
  {
    1 << i
  }

  /** The bit of word 0 is 1, and each next one twice the one before: the powers of two. */
  lemma BitDoubles(i: nat)
    requires i < 31
    ensures Bit(0) == 1 && Bit(i + 1) == Bit(i) + Bit(i)
  {
    ShiftDoubles(i as bv5);
  }

  lemma ShiftDoubles(k: bv5)
    requires k < 31
    ensures (1 as Mask) << (k + 1) == ((1 as Mask) << k) + ((1 as Mask) << k)
  {
  }

  /** The bits of `m` are the indices in `s`, and `m` is zero exactly when there are none. */
  ghost predicate Represents(m: Mask, s: set<nat>) {
    && (forall i: nat :: i < 32 ==> (m & Bit(i) != 0 <==> i in s))
    && (forall i :: i in s ==> i < 32)
    && (m == 0 <==> s == {})
  }

  lemma OrTests(a: Mask, b: Mask, c: Mask)
    ensures (a | b) & c != 0 <==> a & c != 0 || b & c != 0
    ensures a | b == 0 <==> a == 0 && b == 0
  {
  }

  lemma BitsApart(i: nat, j: nat)
    requires i < 32 && j < 32
    ensures Bit(i) & Bit(j) != 0 <==> i == j
  {
  }

  lemma BitAlone(i: nat)
    requires i < 32
    ensures Represents(Bit(i), {i})
  {
    forall j: nat | j < 32 ensures Bit(i) & Bit(j) != 0 <==> j in {i} { BitsApart(i, j); }
  }

  /** Merging masks is merging sets. */
  lemma MergeMasks(a: Mask, s: set<nat>, b: Mask, t: set<nat>)
    requires Represents(a, s) && Represents(b, t)
    ensures Represents(a | b, s + t)
  {
    OrTests(a, b, 0);
    forall i: nat | i < 32 ensures (a | b) & Bit(i) != 0 <==> i in s + t { MergedBit(a, s, b, t, i); }
  }

  lemma MergedBit(a: Mask, s: set<nat>, b: Mask, t: set<nat>, i: nat)
    requires i < 32 && (a & Bit(i) != 0 <==> i in s) && (b & Bit(i) != 0 <==> i in t)
    ensures (a | b) & Bit(i) != 0 <==> i in s + t
  {
    OrTests(a, b, Bit(i));
  }

  /** Marking the end of word `i`. */
  lemma MarkMask(m: Mask, s: set<nat>, i: nat)
    requires Represents(m, s) && i < 32
    ensures Represents(m | Bit(i), s + {i})
  {
    BitAlone(i);
    MergeMasks(m, s, Bit(i), {i});
  }

  /** The words `ws[i]`, i < n, equal to `u`. */
  ghost function OwnBelow(ws: seq<Word>, u: Word, n: nat): set<nat>
    requires n <= |ws|
  {
    set k: nat | k < n && ws[k] == u
  }

  /** `1 << i` or-ed over those words: what the trie loop leaves at node `u`. */
  function OwnMask(ws: seq<Word>, u: Word, n: nat): Mask
    requires n <= |ws| && n <= 32
  {
    if n == 0 then 0
    else if ws[n - 1] == u then OwnMask(ws, u, n - 1) | Bit(n - 1)
    else OwnMask(ws, u, n - 1)
  }

  lemma {:induction false} OwnRepresented(ws: seq<Word>, u: Word, n: nat)
    requires n <= |ws| && n <= 32
    ensures Represents(OwnMask(ws, u, n), OwnBelow(ws, u, n))
  {
    if n == 0 {
      NoBits();
    } else {
      OwnRepresented(ws, u, n - 1);
      OwnBelowStep(ws, u, n);
      if ws[n - 1] == u { MarkMask(OwnMask(ws, u, n - 1), OwnBelow(ws, u, n - 1), n - 1); }
    }
  }

  lemma OwnBelowStep(ws: seq<Word>, u: Word, n: nat)
    requires 0 < n <= |ws|
    ensures OwnBelow(ws, u, n) == if ws[n - 1] == u then OwnBelow(ws, u, n - 1) + {n - 1} else OwnBelow(ws, u, n - 1)
  {
  }

  lemma NoBits()
    ensures Represents(0, {})
  {
    forall i: nat | i < 32 ensures 0 & Bit(i) == 0 {
      NoBit(Bit(i));
    }
  }

  lemma NoBit(b: Mask)
    ensures 0 & b == 0
  {
  }

  /** The finished int table: each state's own words, merged with the entry of its failure state once it
      is two characters deep. */
  ghost predicate IntTable(ws: seq<Word>, tr: Trie, f: seq<int>, ms: seq<Mask>, s: nat)
    requires |ws| <= 32 && s < |tr.word|
  {
    && s < |ms| && s < |f|
    && var own := OwnMask(ws, tr.word[s], |ws|);
    if |tr.word[s]| < 2 then ms[s] == own
    else 0 <= f[s] < |ms| && ms[s] == own | ms[f[s]]
  }

  /** For at most 32 words the finished int table represents the finished output sets; a state's entry
      is zero exactly when its set is empty, which is what the scan tests. */
  lemma {:induction false} IntTableRepresents(ws: seq<Word>, tr: Trie, g: seq<int>, f: seq<int>, out: seq<set<nat>>,
                                              ms: seq<Mask>, s: nat)
    requires |ws| <= 32 && Complete(ws, tr, g, f, out) && s < |tr.word|
    requires forall t: nat {:trigger IntTable(ws, tr, f, ms, t)} :: t < |tr.word| ==> IntTable(ws, tr, f, ms, t)
    ensures s < |out| && s < |ms| && Represents(ms[s], out[s]) && (ms[s] == 0 <==> out[s] == {})
    decreases |tr.word[s]|
  {
    assert IntTable(ws, tr, f, ms, s) && OutOK(ws, tr, out, s);
    if |tr.word[s]| < 2 {
      EntryShallow(ws, tr, f, out, ms, s);
    } else {
      assert tr.word[0] == [] && FailOK(ws, tr, f, s);
      var t: nat := f[s];
      IntTableRepresents(ws, tr, g, f, out, ms, t);
      assert OutOK(ws, tr, out, t);
      EntryMerged(ws, tr, f, out, ms, s, t);
    }
  }

  lemma EntryShallow(ws: seq<Word>, tr: Trie, f: seq<int>, out: seq<set<nat>>, ms: seq<Mask>, s: nat)
    requires |ws| <= 32 && s < |tr.word| && |tr.word[s]| < 2 && IntTable(ws, tr, f, ms, s) && OutOK(ws, tr, out, s)
    ensures Represents(ms[s], out[s])
  {
    OwnRepresented(ws, tr.word[s], |ws|);
    assert OwnBelow(ws, tr.word[s], |ws|) == Own(ws, tr.word[s]);
  }

  lemma EntryMerged(ws: seq<Word>, tr: Trie, f: seq<int>, out: seq<set<nat>>, ms: seq<Mask>, s: nat, t: nat)
    requires |ws| <= 32 && s < |tr.word| && t < |tr.word| && |tr.word[s]| >= 2 && IntTable(ws, tr, f, ms, s)
    requires OutOK(ws, tr, out, s) && OutOK(ws, tr, out, t) && f[s] == t && tr.word[t] == Failure(ws, tr.word[s])
    requires t < |ms| && Represents(ms[t], out[t])
    ensures Represents(ms[s], out[s])
  {
    var u := tr.word[s];
    OwnRepresented(ws, u, |ws|);
    assert OwnBelow(ws, u, |ws|) == Own(ws, u);
    MergeMasks(OwnMask(ws, u, |ws|), Own(ws, u), ms[t], out[t]);
  }

  // ----- the build, turn by turn -----

  /** The int table holds the output sets. */
  ghost predicate Mirrors(ms: seq<Mask>, out: seq<set<nat>>) {
    |ms| == |out| && forall s :: 0 <= s < |ms| ==> Represents(ms[s], out[s])
  }

  lemma MirrorStart(rows: nat)
    ensures Mirrors(seq(rows, _ => 0), seq(rows, _ => {}))
  {
    NoBits();
  }

  /** The end of word `i` marked at state `s`. */
  lemma MirrorMark(ms: seq<Mask>, out: seq<set<nat>>, s: nat, i: nat)
    requires Mirrors(ms, out) && s < |ms| && i < 32
    ensures Mirrors(ms[s := ms[s] | Bit(i)], out[s := out[s] + {i}])
  {
    MarkMask(ms[s], out[s], i);
  }

  /** The output of `failure` merged into that of `child`. */
  lemma MirrorMerge(ms: seq<Mask>, out: seq<set<nat>>, child: nat, failure: nat)
    requires Mirrors(ms, out) && child < |ms| && failure < |ms|
    ensures Mirrors(ms[child := ms[child] | ms[failure]], out[child := out[child] + out[failure]])
  {
    MergeMasks(ms[child], out[child], ms[failure], out[failure]);
  }

  ghost predicate Below(s: set<nat>, n: nat) {
    forall i :: i in s ==> i < n
  }

  ghost predicate HasMask(s: set<nat>) {
    exists m :: Represents(m, s)
  }

  /** The int has a mask for every set of indices of n words exactly when n is at most 32. */
  lemma MasksSuffice(n: nat)
    ensures (forall s :: Below(s, n) ==> HasMask(s)) <==> n <= 32
  {
    if n <= 32 {
      forall s | Below(s, n) ensures HasMask(s) { MaskExists(s, n); }
    } else {
      var s: set<nat> := {32};
      assert Below(s, n) && !HasMask(s);
    }
  }

  lemma {:induction false} MaskExists(s: set<nat>, n: nat)
    requires n <= 32 && Below(s, n)
    ensures HasMask(s)
  {
    if n == 0 {
      NoBits();
      assert s == {};
    } else {
      var rest := s - {n - 1};
      MaskExists(rest, n - 1);
      var m :| Represents(m, rest);
      if n - 1 in s {
        MarkMask(m, rest, n - 1);
        assert rest + {n - 1} == s;
      } else {
        assert rest == s;
      }
    }
  }
}
