/**
 * The `starts` table of `preprocess_bwt`: for every symbol the first row of
 * its block in the sorted column.  Two loops over `sorted(bwt)` compute it.
 * The first-occurrence loop (a key is added the first time its symbol is
 * met) gives exactly that.  The zero-test loop (`if starts[char] == 0:
 * starts[char] = i`) gives it except for the least symbol of bwt when that
 * symbol occurs twice or more: its entry is set to 0 at row 0, still reads
 * 0 at row 1 and becomes 1.
 */
module SearchStarts {
  import opened StringSpec
  import opened CountingSort
  import opened CharacterSort
  import opened LastToFirst
  import opened Starts
  import opened SuffixArray
  import opened BurrowsWheeler

  /** i is the first row of sorted that holds c. */
  predicate IsFirstIndex(sorted: string, c: char, i: int)
  {
    0 <= i < |sorted| && sorted[i] == c && forall q :: 0 <= q < i ==> sorted[q] != c
  }

  /** The sorted column holds the same symbols as bwt. */
  lemma SameSymbols(bwt: string, c: char)
    ensures c in FirstColumn(bwt) <==> c in bwt
  {
    assert c in FirstColumn(bwt) <==> c in multiset(FirstColumn(bwt));
    assert c in bwt <==> c in multiset(bwt);
  }

  /** The first row of c in the sorted column is Start(bwt, c). */
  lemma FirstIndexIsStart(bwt: string, c: char, i: int)
    requires IsFirstIndex(FirstColumn(bwt), c, i)
    ensures i == Start(bwt, c) && Count(c, bwt) > 0
  {
    SameSymbols(bwt, c);
    var j :| 0 <= j < |bwt| && bwt[j] == c;
    CountPositive(c, bwt, j);
    StartIsFirstRow(bwt, c);
  }

  /** A `starts` dict keyed by the symbols of bwt, each mapped to its first row in the sorted column. */
  predicate IsStartMap(bwt: string, starts: map<char, int>)
  {
    (forall c :: c in starts <==> c in bwt) && forall c :: c in starts ==> starts[c] == Start(bwt, c)
  }

  /** After the first i rows, `starts` has a key for each symbol met so far, mapped to its first row. */
  predicate FirstIndexUpTo(sorted: string, starts: map<char, int>, i: nat)
  {
    i <= |sorted|
    && (forall c :: c in starts <==> c in sorted[..i])
    && forall c :: c in starts ==> IsFirstIndex(sorted, c, starts[c])
  }

  /** Row i adds its symbol exactly when that symbol has no key yet. */
  lemma FirstIndexStep(sorted: string, starts: map<char, int>, i: nat)
    requires i < |sorted| && FirstIndexUpTo(sorted, starts, i)
    ensures FirstIndexUpTo(sorted, if sorted[i] !in starts then starts[sorted[i] := i] else starts, i + 1)
  {
    assert sorted[..i + 1] == sorted[..i] + [sorted[i]];
    if sorted[i] !in starts {
      forall q | 0 <= q < i
        ensures sorted[q] != sorted[i]
      {
        assert sorted[q] == sorted[..i][q];
      }
    }
  }

  /** `starts` of bwmatching_1 and bwtmatching_11: a key for each symbol of bwt, added at its first row. */
  method FirstIndexStarts(bwt: string) returns (starts: map<char, int>)
    ensures forall c :: c in starts <==> c in bwt
    ensures forall c :: c in starts ==> starts[c] == Start(bwt, c)
  {
    var sorted := FirstColumn(bwt);
    starts := map[];
    for i := 0 to |sorted|
      invariant FirstIndexUpTo(sorted, starts, i)
    {
      FirstIndexStep(sorted, starts, i);
      if sorted[i] !in starts {
        starts := starts[sorted[i] := i];
      }
    }
    assert sorted[..|sorted|] == sorted;
    forall c
      ensures c in starts <==> c in bwt
      ensures c in starts ==> starts[c] == Start(bwt, c)
    {
      SameSymbols(bwt, c);
      if c in starts {
        FirstIndexIsStart(bwt, c, starts[c]);
      }
    }
  }

  /** What the zero-test loop leaves for c. */
  function ZeroTestStart(bwt: string, c: char): nat
  {
    if Start(bwt, c) == 0 && Count(c, bwt) >= 2 then 1 else Start(bwt, c)
  }

  /** What the zero-test loop holds for c after the first i rows of the sorted column. */
  function ZeroTestUpTo(bwt: string, c: char, i: nat): nat
    requires i <= |bwt|
  {
    var m := Count(c, FirstColumn(bwt)[..i]);
    if m == 0 then 0 else if Start(bwt, c) == 0 && m >= 2 then 1 else Start(bwt, c)
  }

  /** Every symbol of the sorted column is a symbol of bwt. */
  lemma SortedOver(bwt: string, i: nat)
    requires Over(bwt, ALPHABET) && i < |bwt|
    ensures FirstColumn(bwt)[i] in ALPHABET
  {
    SameSymbols(bwt, FirstColumn(bwt)[i]);
  }

  /** One row of the zero-test loop, for one symbol c: the entry is set to i when it still reads 0 and row i holds c. */
  lemma ZeroTestEntry(bwt: string, i: nat, c: char)
    requires i < |bwt|
    ensures ZeroTestUpTo(bwt, c, i + 1)
      == if FirstColumn(bwt)[i] == c && ZeroTestUpTo(bwt, c, i) == 0 then i else ZeroTestUpTo(bwt, c, i)
  {
    var f := FirstColumn(bwt);
    CountPrefixStep(c, f, i);
    if f[i] == c {
      SortedRank(f, i);
      SmallerRearranged(f, bwt, c);
      CountPositive(c, f, i);
      CountMultiset(c, f);
      CountMultiset(c, bwt);
    }
  }

  lemma ZeroTestStep(bwt: string, starts: seq<int>, i: nat, idx: nat)
    requires i < |bwt| && idx < |ALPHABET| && ALPHABET[idx] == FirstColumn(bwt)[i]
    requires |starts| == |ALPHABET| && forall k :: 0 <= k < |ALPHABET| ==> starts[k] == ZeroTestUpTo(bwt, ALPHABET[k], i)
    ensures var next := if starts[idx] == 0 then starts[idx := i] else starts;
      forall k :: 0 <= k < |ALPHABET| ==> next[k] == ZeroTestUpTo(bwt, ALPHABET[k], i + 1)
  {
    AlphabetFacts();
    forall k | 0 <= k < |ALPHABET|
      ensures ZeroTestUpTo(bwt, ALPHABET[k], i + 1)
        == if k == idx && starts[idx] == 0 then i else starts[k]
    {
      ZeroTestEntry(bwt, i, ALPHABET[k]);
    }
  }

  /** `starts` of bwtmatching_10, bwtmatching_15, bwmatching_7 and the suffix-array matcher: the zero-test loop. */
  method ZeroTestStarts(bwt: string) returns (starts: seq<int>)
    requires Over(bwt, ALPHABET)
    ensures |starts| == |ALPHABET| && forall k :: 0 <= k < |ALPHABET| ==> starts[k] == ZeroTestStart(bwt, ALPHABET[k])
  {
    var sorted := FirstColumn(bwt);
    starts := seq(|ALPHABET|, _ => 0);
    for i := 0 to |sorted|
      invariant |starts| == |ALPHABET| && forall k :: 0 <= k < |ALPHABET| ==> starts[k] == ZeroTestUpTo(bwt, ALPHABET[k], i)
    {
      SortedOver(bwt, i);
      var idx := IndexOf(ALPHABET, sorted[i]);
      ZeroTestStep(bwt, starts, i, idx);
      if starts[idx] == 0 {
        starts := starts[idx := i];
      }
    }
    assert sorted[..|sorted|] == sorted;
    forall k | 0 <= k < |ALPHABET|
      ensures Count(ALPHABET[k], sorted) == Count(ALPHABET[k], bwt)
    {
      CountMultiset(ALPHABET[k], sorted);
      CountMultiset(ALPHABET[k], bwt);
    }
  }

  /** When '$' occurs exactly once, the zero test gives every symbol of "$ACGT" its true start. */
  lemma ZeroTestAgrees(bwt: string)
    requires Over(bwt, ALPHABET) && Count('$', bwt) == 1
    ensures forall k :: 0 <= k < |ALPHABET| ==> ZeroTestStart(bwt, ALPHABET[k]) == Start(bwt, ALPHABET[k])
  {
    forall k | 1 <= k < |ALPHABET| && Count(ALPHABET[k], bwt) > 0
      ensures Start(bwt, ALPHABET[k]) > 0
    {
      CountBelowMono('$' as int, ALPHABET[k] as int, Codes(bwt));
      CountCodes('$', bwt);
    }
  }

  /** A '$'-terminated text holds '$' once. */
  lemma TerminatedDollarCount(t: string)
    requires Terminated(t)
    ensures Count('$', t) == 1
  {
    var n := |t|;
    var body := t[..n - 1];
    assert t == body + ['$'];
    assert forall i :: 0 <= i < |body| ==> body[i] != '$';
    CountAbsent('$', body);
    CountAppend('$', body, ['$']);
    assert ['$'][..0] == [];
  }

  /** The transform of a '$'-terminated text over "$ACGT" is over "$ACGT" and holds '$' once. */
  lemma TerminatedDollarOnce(t: string)
    requires Terminated(t) && Over(t, ALPHABET)
    ensures Over(BwtOf(t), ALPHABET) && Count('$', BwtOf(t)) == 1
  {
    var L := BwtOf(t);
    BwtCounts(t);
    forall i | 0 <= i < |L|
      ensures L[i] in ALPHABET
    {
      assert L[i] in multiset(t);
    }
    TerminatedDollarCount(t);
    CountMultiset('$', t);
    CountMultiset('$', L);
  }

  /** On such a transform the zero-test starts are the true starts. */
  lemma ZeroTestOnTransform(t: string)
    requires Terminated(t) && Over(t, ALPHABET)
    ensures forall k :: 0 <= k < |ALPHABET| ==> ZeroTestStart(BwtOf(t), ALPHABET[k]) == Start(BwtOf(t), ALPHABET[k])
  {
    TerminatedDollarOnce(t);
    ZeroTestAgrees(BwtOf(t));
  }

  /**
   * The transform "AA" (of the text "AA"): the zero test gives 'A' the
   * start 1 although its block begins at row 0, so the first backward step
   * with 'A' ends at row 2, past the last row.
   */
  lemma ZeroTestMisplacesLeast()
    ensures Start("AA", 'A') == 0 && ZeroTestStart("AA", 'A') == 1
    ensures ZeroTestStart("AA", 'A') + Count('A', "AA"[..2]) - 1 == |"AA"|
  {
    var codes := Codes("AA");
    assert codes[..1][..0] == [] && codes[..1][0] == 'A' as int && codes[1] == 'A' as int;
    assert CountBelow('A' as int, codes[..1][..0]) == 0;
    assert CountBelow('A' as int, codes[..1]) == 0;
    assert codes[..|codes| - 1] == codes[..1];
    assert CountBelow('A' as int, codes) == 0;
    assert "AA"[..1][..0] == [] && "AA"[..2] == "AA";
    assert Count('A', "AA") == 2;
  }
}
