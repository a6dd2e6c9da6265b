/** Characters, words and the suffix order shared by every matcher. */
module Strings {

  /** `MAXC_`: the number of columns in a row of the goto table. */
  const MAXC := 127

  /** A character usable as a column index. */
  type Chr = c: int | 0 <= c < MAXC

  type Word = seq<Chr>

  predicate IsSuffix(s: Word, t: Word) {
    |s| <= |t| && t[|t| - |s|..] == s
  }

  lemma SuffixTransitive(a: Word, b: Word, t: Word)
    requires IsSuffix(a, b) && IsSuffix(b, t)
    ensures IsSuffix(a, t)
  {
    assert t[|t| - |a|..] == t[|t| - |b|..][|b| - |a|..];
  }

  lemma SuffixSnoc(a: Word, t: Word, c: Chr)
    ensures IsSuffix(a + [c], t + [c]) <==> IsSuffix(a, t)
  {
    if |a| <= |t| {
      assert (t + [c])[|t| - |a|..] == t[|t| - |a|..] + [c];
      assert (a + [c])[..|a|] == a;
      assert (t[|t| - |a|..] + [c])[..|a|] == t[|t| - |a|..];
    }
  }

  /** A non-empty suffix of `t + [c]` ends in `c`, after a suffix of `t`. */
  lemma SuffixUnsnoc(x: Word, t: Word, c: Chr)
    requires x != [] && IsSuffix(x, t + [c])
    ensures x == x[..|x| - 1] + [c] && IsSuffix(x[..|x| - 1], t)
  {
    var y := x[..|x| - 1];
    assert x[|x| - 1] == (t + [c])[|t|];
    assert x == y + [c];
    SuffixSnoc(y, t, c);
  }

  /** A word suffix other than the whole is a suffix of the tail. */
  lemma SuffixTail(a: Word, t: Word)
    requires IsSuffix(a, t) && a != t
    ensures t != [] && IsSuffix(a, t[1..])
  {
    assert t[0..] == t;
    assert t[1..][|t[1..]| - |a|..] == t[|t| - |a|..];
  }

  lemma TailIsSuffix(a: Word, t: Word)
    requires t != [] && IsSuffix(a, t[1..])
    ensures IsSuffix(a, t)
  {
    assert t[1..][|t[1..]| - |a|..] == t[|t| - |a|..];
  }

  lemma SuffixByIndex(s: Word, t: Word)
    requires |s| <= |t|
    ensures IsSuffix(s, t) <==> forall k :: 0 <= k < |s| ==> s[k] == t[|t| - |s| + k]
  {
    var tail := t[|t| - |s|..];
    assert forall k :: 0 <= k < |s| ==> tail[k] == t[|t| - |s| + k];
  }

  lemma TakeSnoc<T>(s: seq<T>, i: nat)
    requires i < |s|
    ensures s[..i + 1] == s[..i] + [s[i]]
  {
  }

  lemma SliceOfTake<T>(s: seq<T>, n: nat, i: nat, j: nat)
    requires i <= j <= n <= |s|
    ensures s[..n][i..j] == s[i..j]
  {
    var mid := s[..n];
    assert forall k :: i <= k < j ==> mid[k] == s[k];
    assert forall k :: 0 <= k < j - i ==> mid[i..j][k] == mid[i + k];
  }

  lemma SubsetCount<T>(a: set<T>, b: set<T>)
    requires a <= b
    ensures |a| <= |b|
  {
    assert b == a + (b - a);
  }
}
