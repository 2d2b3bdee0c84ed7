/**
 * The reference suffix array: list every suffix with its start, sort the
 * pairs with Python's tuple order and keep the starts.
 */
module NaiveSuffixArray {
  import opened StringSpec
  import opened Sorting

  /** Python's `<=` on `(suffix, start)` tuples: by suffix, then by start. */
  predicate PairLessEq(x: (string, int), y: (string, int))
  {
    Less(x.0, y.0) || (x.0 == y.0 && x.1 <= y.1)
  }

  lemma PairOrder()
    ensures TotalPreorder(PairLessEq)
  {
    forall a: (string, int), b: (string, int)
      ensures PairLessEq(a, b) || PairLessEq(b, a)
    {
      LessTotal(a.0, b.0);
    }
    forall a: (string, int), b: (string, int), c: (string, int) | PairLessEq(a, b) && PairLessEq(b, c)
      ensures PairLessEq(a, c)
    {
      if Less(a.0, b.0) && Less(b.0, c.0) {
        LessTransitive(a.0, b.0, c.0);
      }
    }
  }

  /** Suffixes starting at different positions differ in length, so the start never breaks a tie. */
  lemma SuffixesDiffer(text: string, i: nat, j: nat)
    requires i < |text| && j < |text| && i != j
    ensures Suffix(text, i) != Suffix(text, j)
  {
  }

  /** Every suffix paired with its start, by start. */
  function SuffixPairs(text: string): (r: seq<(string, int)>)
    ensures |r| == |text| && forall i :: 0 <= i < |text| ==> r[i] == (Suffix(text, i), i)
  {
    seq(|text|, i requires 0 <= i < |text| => (Suffix(text, i), i))
  }

  /** The starts of the suffixes sorted with the tuple order. */
  function NaiveSuffixArrayOf(text: string): (sa: seq<int>)
    ensures IsSuffixArray(text, sa)
  {
    PairOrder();
    var sorted := Sort(SuffixPairs(text), PairLessEq);
    var result := seq(|sorted|, k requires 0 <= k < |sorted| => sorted[k].1);
    SortedStarts(text, SuffixPairs(text), sorted, result);
    result
  }

  /** `_create_suffixes`: the pair of each suffix with its start, by start. */
  method CreateSuffixes(text: string) returns (suffixes: seq<(string, int)>)
    ensures suffixes == SuffixPairs(text)
  {
    suffixes := [];
    for i := 0 to |text|
      invariant |suffixes| == i
      invariant forall k :: 0 <= k < i ==> suffixes[k] == (Suffix(text, k), k)
    {
      suffixes := suffixes + [(text[i..], i)];
    }
  }

  /** `build_suffix_array`: sort the pairs and take their starts. */
  method BuildNaiveSuffixArray(text: string) returns (result: seq<int>)
    ensures result == NaiveSuffixArrayOf(text)
    ensures IsSuffixArray(text, result)
  {
    var suffixes := CreateSuffixes(text);
    PairOrder();
    var sorted := Sort(suffixes, PairLessEq);
    result := seq(|sorted|, k requires 0 <= k < |sorted| => sorted[k].1);
  }

  lemma SortedStarts(text: string, suffixes: seq<(string, int)>, sorted: seq<(string, int)>, result: seq<int>)
    requires |suffixes| == |text| && forall i :: 0 <= i < |text| ==> suffixes[i] == (Suffix(text, i), i)
    requires multiset(sorted) == multiset(suffixes) && Ordered(sorted, PairLessEq)
    requires |result| == |sorted| && forall k :: 0 <= k < |sorted| ==> result[k] == sorted[k].1
    ensures IsSuffixArray(text, result)
  {
    var n := |text|;
    assert |sorted| == |multiset(sorted)| == |multiset(suffixes)| == n;
    forall k | 0 <= k < n
      ensures 0 <= sorted[k].1 < n && sorted[k].0 == Suffix(text, sorted[k].1)
    {
      assert sorted[k] in multiset(suffixes);
    }
    assert Distinct(suffixes);
    DistinctRearrangement(sorted, suffixes);
    forall a, b | 0 <= a < b < n
      ensures result[a] != result[b] && Less(Suffix(text, result[a]), Suffix(text, result[b]))
    {
      assert PairLessEq(sorted[a], sorted[b]);
      assert result[a] != result[b];
      SuffixesDiffer(text, result[a], result[b]);
    }
  }
}
