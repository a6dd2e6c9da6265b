/** The matchers against one another: skipping search, flat table and automaton report the same
    occurrences, with the exact conditions under which they do. */
module Agreement {
  import opened Strings
  import opened TrieSpec
  import opened CPUInspectionModule
  import opened WuManber
  import opened WMCPUInspectionModule
  import opened FlatTable
  import opened WMGPUInspectionModule
  import opened WMKernel

  /** Some index the automaton reports at the end of `data[..e]` is that of `p`. */
  ghost predicate Reports(ps: seq<Word>, data: Word, e: nat, p: Word)
    requires 1 <= e <= |data|
  {
    exists k :: 0 <= k < |ps| && k in Scan(ps, data)[e - 1] && ps[k] == p
  }

  /** On every text the skipping scan stays inside the shift table and reports every occurrence. */
  ghost predicate Complete(ps: seq<Word>, tb: seq<int>, pr: Params)
    requires GoodParams(pr)
  {
    && (forall data :: InTable(data, tb, pr))
    && (forall p, data: Word, e: nat :: p in ps && e <= |data| && IsSuffix(p, data[..e]) ==> Hit(ps, data, tb, pr, p, e))
  }

  ghost predicate NoneSkipped(ps: seq<Word>, tb: seq<int>, pr: Params)
    requires GoodParams(pr) && forall p :: p in ps ==> pr.m <= |p|
  {
    forall p :: p in ps ==> NeverSkips(p, tb, pr)
  }

  /** Over all texts the scan is complete exactly when, inside each pattern alone, it reaches the
      pattern's end from every offset at which it can enter, and the table covers all block hashes. */
  lemma CompleteExactly(ps: seq<Word>, tb: seq<int>, pr: Params)
    requires GoodParams(pr) && Bounded(tb, pr) && forall p :: p in ps ==> pr.m <= |p|
    ensures Complete(ps, tb, pr) <==> NoneSkipped(ps, tb, pr) && Covers(tb, pr)
  {
    CoversExactly(tb, pr);
    if NoneSkipped(ps, tb, pr) && Covers(tb, pr) {
      forall p, data: Word, e: nat | p in ps && e <= |data| && IsSuffix(p, data[..e])
        ensures Hit(ps, data, tb, pr, p, e)
      {
        FoundInTable(data, p, tb, pr, e);
      }
    }
    if Complete(ps, tb, pr) {
      forall p | p in ps ensures NeverSkips(p, tb, pr) {
        forall text: Word, e: nat | pr.m <= e <= |text| && IsSuffix(p, text[..e])
          ensures Stops(text, tb, pr, pr.m, e)
        {
          assert Hit(ps, text, tb, pr, p, e);
        }
        SkippingExact(p, tb, pr);
      }
    }
  }

  /** Built tables jump over nothing when no pattern holds a NUL and each bucket's last block has the
      least shift, in particular when no two blocks collide; so their scan is complete exactly when the
      table covers all block hashes. */
  lemma BuiltComplete(ps: seq<Word>, idx: seq<seq<Word>>, tb: seq<int>, pr: Params)
    requires GoodParams(pr) && IndexTable(ps, idx, pr) && ShiftTable(CStrs(ps), idx, tb, pr)
    requires forall p :: p in ps ==> pr.m <= |p| && 0 !in p
    requires LastIsLeast(ps, idx, pr) || NoCollision(ps, pr)
    ensures NoneSkipped(ps, tb, pr)
    ensures Complete(ps, tb, pr) <==> Covers(tb, pr)
  {
    if NoCollision(ps, pr) { NoCollisionLastIsLeast(ps, idx, pr); }
    TableBounded(ps, idx, tb, pr);
    forall p | p in ps ensures NeverSkips(p, tb, pr) {
      var i :| 0 <= i < |ps| && ps[i] == p;
      TableSafe(ps, idx, tb, pr, i);
    }
    CompleteExactly(ps, tb, pr);
  }

  /** On any text on which it stays inside the shift table, a scan that skips nothing inside a pattern
      reports the same words at the same places as the automaton. */
  lemma SkippingAgrees(ps: seq<Word>, tb: seq<int>, pr: Params, data: Word, e: nat, p: Word)
    requires GoodParams(pr) && Bounded(tb, pr) && (forall p :: p in ps ==> pr.m <= |p|) && NoneSkipped(ps, tb, pr)
    requires InTable(data, tb, pr) && 1 <= e <= |data|
    ensures Hit(ps, data, tb, pr, p, e) <==> Reports(ps, data, e, p)
  {
    ReportsMeaning(ps, data, e, p);
    if p in ps && IsSuffix(p, data[..e]) { FoundInTable(data, p, tb, pr, e); }
  }

  /** 152 rules "aaa": m = 3, M = 456, and blocks of two characters under the program's hash. Their only
      block "aa" hashes to 95, and the index has an entry for each of the 304 blocks cut. */
  ghost predicate Aaa(ps: seq<Word>, pr: Params, idx: seq<seq<Word>>) {
    && |ps| == 152 && (forall i :: 0 <= i < |ps| ==> ps[i] == [97, 97, 97])
    && pr.B == 2 && pr.m == 3 && (forall x: Chr, y: Chr :: pr.hash([x, y]) == (x + 94 * y) % 456)
    && |idx| == 304
    && (forall h :: 0 <= h < |idx| ==> idx[h] == if h == 95 then [[97, 97]] else if h == 303 then [[42]] else [])
  }

  lemma AaaBlock(w: Word, b: Word)
    requires w == [97, 97, 97]
    ensures HasBlock(w, b, 2) <==> b == [97, 97]
  {
    assert Block(w, 2, 2) == [97, 97] && Block(w, 3, 2) == [97, 97];
  }

  lemma AaaIndex(ps: seq<Word>, pr: Params, idx: seq<seq<Word>>)
    requires Aaa(ps, pr, idx)
    ensures IndexTable(ps, idx, pr) && NoCollision(ps, pr)
  {
    var aa: Word := [97, 97];
    assert pr.hash(aa) == 95;
    forall i, b | 0 <= i < |ps| ensures HasBlock(ps[i], b, pr.B) <==> b == aa { AaaBlock(ps[i], b); }
    forall h: nat | h < |idx| - 1 ensures Bucket(ps, idx[h], h, pr) {
      forall b ensures b in idx[h] <==> pr.hash(b) == h && exists i :: 0 <= i < |ps| && HasBlock(ps[i], b, pr.B) {
        assert HasBlock(ps[0], b, pr.B) <==> b == aa;
      }
    }
    forall i, q: nat | 0 <= i < |ps| && pr.B <= q <= |ps[i]| ensures pr.hash(Block(ps[i], q, pr.B)) < |idx| - 1 {
      assert HasBlock(ps[i], Block(ps[i], q, pr.B), pr.B);
    }
  }

  /** Nothing collides and nothing is jumped over, but in the texts "aad" and "aadaaa" the scan stands
      first at the block "ad", whose hash is past the end of the table; the "aaa" at the end of the
      second is not found. */
  lemma TableReadPastEnd(ps: seq<Word>, pr: Params, idx: seq<seq<Word>>, tb: seq<int>, data: Word)
    requires Aaa(ps, pr, idx) && ShiftTable(CStrs(ps), idx, tb, pr)
    requires data == [97, 97, 100] || data == [97, 97, 100] + ps[0]
    ensures IndexTable(ps, idx, pr) && NoCollision(ps, pr) && NoneSkipped(ps, tb, pr)
    ensures !InTable(data, tb, pr) && !Covers(tb, pr)
    ensures |data| == 6 ==> IsSuffix(ps[0], data[..6]) && !Hit(ps, data, tb, pr, ps[0], 6)
  {
    AaaSkipsNothing(ps, pr, idx, tb);
    ReadsPastEnd(pr, tb, data);
    assert !Covers(tb, pr) by { CoversExactly(tb, pr); }
    if |data| == 6 {
      assert data[..6] == data && data[3..] == ps[0];
    }
  }

  lemma AaaSkipsNothing(ps: seq<Word>, pr: Params, idx: seq<seq<Word>>, tb: seq<int>)
    requires Aaa(ps, pr, idx) && ShiftTable(CStrs(ps), idx, tb, pr)
    ensures IndexTable(ps, idx, pr) && NoCollision(ps, pr) && NoneSkipped(ps, tb, pr)
  {
    AaaIndex(ps, pr, idx);
    BuiltComplete(ps, idx, tb, pr);
  }

  lemma ReadsPastEnd(pr: Params, tb: seq<int>, data: Word)
    requires pr.B == 2 && pr.m == 3 && |tb| == 304 && (forall x: Chr, y: Chr :: pr.hash([x, y]) == (x + 94 * y) % 456)
    requires |data| >= 3 && data[..3] == [97, 97, 100]
    ensures !InTable(data, tb, pr) && forall e: nat :: 3 <= e <= |data| ==> !Stops(data, tb, pr, 3, e)
  {
    var ad: Word := [97, 100];
    assert Block(data, 3, 2) == data[..3][1..] == ad && pr.hash(ad) == 377;
    assert Reaches(data, tb, pr, 3, 3) && !HasEntry(data, tb, pr, 3);
  }

  /** The automaton reports a non-empty word exactly where it ends. */
  lemma ReportsMeaning(ps: seq<Word>, data: Word, e: nat, p: Word)
    requires (forall p :: p in ps ==> p != []) && 1 <= e <= |data|
    ensures Reports(ps, data, e, p) <==> p in ps && IsSuffix(p, data[..e])
  {
    forall k: nat | k < |ps| ensures k in Scan(ps, data)[e - 1] <==> IsSuffix(ps[k], data[..e]) {
      assert ps[k] in ps;
      IndexReported(ps, data, e, k);
    }
  }

  lemma IndexReported(ps: seq<Word>, data: Word, e: nat, k: nat)
    requires k < |ps| && ps[k] != [] && 1 <= e <= |data|
    ensures k in Scan(ps, data)[e - 1] <==> IsSuffix(ps[k], data[..e])
  {
    assert Scan(ps, data)[e - 1] == Reported(ps, data[..e]) by { ScanAt(ps, data, e); }
    assert k in Reported(ps, data[..e]) <==> IsSuffix(ps[k], data[..e]) by { ReportedMeaning(ps, data[..e], k); }
  }

  /** The flat-table matcher agrees with the automaton at an index exactly when, if the block there
      hashes to 0, no pattern ends there, and otherwise none straddles the start of the text. */
  lemma FlatAgrees(ps: seq<Word>, pr: Params, before: Word, data: Word, flags: seq<bool>, posicao: int, pos: nat)
    requires 1 <= pr.B && pos + pr.B <= |data| && FoundAt(ps, pr, before, data, flags, posicao, pos)
    requires forall p :: p in ps ==> pr.B <= |p|
    ensures var h, e := pr.hash(Block(data, pos + pr.B, pr.B)), pos + pr.B;
            (forall p :: p in ps ==> (Flagged(ps, pr, h, flags, p) <==> Reports(ps, data, e, p)))
            <==> if h == 0 then forall p :: p in ps ==> !IsSuffix(p, data[..e])
                 else forall p :: p in ps ==> !Straddles(p, before, data, e)
  {
    var e := pos + pr.B;
    forall p | p in ps
      ensures Reports(ps, data, e, p) <==> IsSuffix(p, data[..e])
      ensures IsSuffix(p, Memory(before, data, e)) <==> IsSuffix(p, data[..e]) || Straddles(p, before, data, e)
    {
      ReportsMeaning(ps, data, e, p);
      MemoryMatch(p, before, data, e);
    }
  }
}
