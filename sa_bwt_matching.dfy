/**
 * `find_occurrences` of the suffix-array matcher with a transform: build the
 * suffix array of the text, take the transform from it, preprocess it once,
 * then for every pattern collect the suffix-array entries of the rows
 * `return_occurrences` reports.  For a '$'-terminated text over "$ACGT" and
 * patterns without '$', the result is the set of all positions where some
 * pattern occurs.
 */
module LocateWithBwt {
  import opened StringSpec
  import opened CharacterSort
  import opened Starts
  import opened SuffixArray
  import opened BurrowsWheeler
  import opened NaiveSuffixArray
  import opened BackwardSearch
  import opened SearchStarts
  import opened OccurrenceTables
  import opened BackwardCount

  /** The suffix-array entries of the rows `[start, end)`, none for `None`. */
  function Located(sa: seq<int>, range: Option<(int, int)>): set<int>
  {
    match range
    case None => {}
    case Some((start, end)) => set r | start <= r < end && 0 <= r < |sa| :: sa[r]
  }

  /** The positions the loop over patterns collects, given the suffix array and its transform. */
  function Hits(sa: seq<int>, bwt: string, patterns: seq<string>): set<int>
    decreases |patterns|
  {
    if |patterns| == 0 then {}
    else Hits(sa, bwt, patterns[..|patterns| - 1]) + Located(sa, RowRange(bwt, patterns[|patterns| - 1]))
  }

  /** The positions where some pattern of the list occurs. */
  function AllOccurrences(patterns: seq<string>, t: string): (s: set<int>)
    ensures forall i :: i in s <==> exists k :: 0 <= k < |patterns| && i in OccurrencesOf(patterns[k], t)
    decreases |patterns|
  {
    if |patterns| == 0 then {}
    else
      var front := patterns[..|patterns| - 1];
      var s := AllOccurrences(front, t) + OccurrencesOf(patterns[|patterns| - 1], t);
      assert forall k :: 0 <= k < |front| ==> front[k] == patterns[k];
      s
  }

  /** The interval `[top, bottom]` reported as a range is located at the entries of its rows. */
  lemma LocatedRows(sa: seq<int>, top: int, bottom: int)
    requires 0 <= top <= bottom + 1 <= |sa|
    ensures Located(sa, if top > bottom then None else Some((top, bottom + 1))) == set r | r in Rows(top, bottom) :: sa[r]
  {
  }

  /** The rows a pattern's range reports in the suffix array are the positions where it occurs. */
  lemma LocatedOccurrences(t: string, p: string)
    requires Terminated(t) && '$' !in p
    ensures Located(NaiveSuffixArrayOf(t), RowRange(BwtOf(t), p)) == OccurrencesOf(p, t)
  {
    var sa := NaiveSuffixArrayOf(t);
    var iv := Interval(BwtOf(t), p);
    IntervalLocates(t, sa, p);
    LocatedRows(sa, iv.0, iv.1);
  }

  /** For a '$'-terminated text and '$'-free patterns, the collected positions are all occurrences of the patterns. */
  lemma {:induction false} HitsAreOccurrences(t: string, patterns: seq<string>)
    requires Terminated(t) && forall k :: 0 <= k < |patterns| ==> '$' !in patterns[k]
    ensures Hits(NaiveSuffixArrayOf(t), BwtOf(t), patterns) == AllOccurrences(patterns, t)
    decreases |patterns|
  {
    if |patterns| > 0 {
      var front := patterns[..|patterns| - 1];
      HitsAreOccurrences(t, front);
      LocatedOccurrences(t, patterns[|patterns| - 1]);
    }
  }

  /** The loop over patterns after the first j of them. */
  method CollectRange(sa: seq<int>, range: Option<(int, int)>, occurrences: set<int>) returns (result: set<int>)
    ensures result == occurrences + Located(sa, range)
  {
    result := occurrences;
    if range.Some? {
      var (start, end) := range.value;
      var i := start;
      while i < end
        invariant if start <= end then start <= i <= end else i == start
        invariant result == occurrences + (set r | start <= r < i && 0 <= r < |sa| :: sa[r])
        decreases end - i
      {
        if 0 <= i < |sa| {
          result := result + {sa[i]};
        }
        i := i + 1;
      }
    }
  }

  /** The index `find_occurrences` builds once: the suffix array, the transform taken from it, and the tables. */
  method BuildIndex(text: string, alphabet: string) returns (sa: seq<int>, bwt: string, starts: seq<int>, occ: seq<seq<int>>)
    requires Terminated(text) && StrictlyIncreasing(alphabet) && Over(text, alphabet) && Over(text, ALPHABET)
    ensures sa == NaiveSuffixArrayOf(text) && bwt == BwtOf(text)
    ensures IsStarts(bwt, starts) && IsColumnTable(bwt, occ)
  {
    sa := BuildSuffixArrayOver(alphabet, text);
    BuildersAgree(text, sa, NaiveSuffixArrayOf(text));
    bwt := BwtFromSuffixArray(text, sa);
    BwtFromSuffixArrayIsBwt(text, sa);
    TerminatedDollarOnce(text);
    ZeroTestOnTransform(text);
    starts, occ := PreprocessWithBwt(bwt);
  }

  /** The loop of `find_occurrences` over the patterns. */
  method CollectAll(sa: seq<int>, bwt: string, starts: seq<int>, occ: seq<seq<int>>, patterns: seq<string>) returns (occurrences: set<int>)
    requires IsStarts(bwt, starts) && IsColumnTable(bwt, occ)
    requires forall k :: 0 <= k < |patterns| ==> Over(patterns[k], ALPHABET)
    ensures occurrences == Hits(sa, bwt, patterns)
  {
    occurrences := {};
    for j := 0 to |patterns|
      invariant occurrences == Hits(sa, bwt, patterns[..j])
    {
      var range := ReturnOccurrences(patterns[j], bwt, starts, occ);
      occurrences := CollectRange(sa, range, occurrences);
      assert patterns[..j + 1][..j] == patterns[..j];
    }
    assert patterns[..|patterns|] == patterns;
  }

  /** `find_occurrences` of suffix_array_matching_with_bwt. */
  method FindOccurrences(text: string, patterns: seq<string>, alphabet: string) returns (occurrences: set<int>)
    requires Terminated(text) && StrictlyIncreasing(alphabet) && Over(text, alphabet) && Over(text, ALPHABET)
    requires forall k :: 0 <= k < |patterns| ==> Over(patterns[k], ALPHABET)
    ensures occurrences == Hits(NaiveSuffixArrayOf(text), BwtOf(text), patterns)
    ensures (forall k :: 0 <= k < |patterns| ==> '$' !in patterns[k]) ==> occurrences == AllOccurrences(patterns, text)
  {
    var sa, bwt, starts, occ := BuildIndex(text, alphabet);
    occurrences := CollectAll(sa, bwt, starts, occ, patterns);
    if forall k :: 0 <= k < |patterns| ==> '$' !in patterns[k] {
      HitsAreOccurrences(text, patterns);
    }
  }
}
