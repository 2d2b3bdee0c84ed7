/**
 * The count table and the starting positions shared by the counting-sort
 * copies of the inverse transform and of the pattern counter: for every
 * letter of the fixed alphabet, how often it occurs in the transform, and at
 * which row of the sorted column its block begins.  The dicts keyed by the
 * letters of ALPHABET and the lists indexed by their rank are one table here,
 * indexed by rank.
 */
module Starts {
  import opened StringSpec
  import opened CountingSort
  import opened CharacterSort
  import opened LastToFirst

  /** count[k] is the number of occurrences of ALPHABET[k] in bwt. */
  predicate IsTally(bwt: string, count: seq<int>)
  {
    |count| == |ALPHABET| && forall k :: 0 <= k < |ALPHABET| ==> count[k] == Count(ALPHABET[k], bwt)
  }

  /** The starting position the position chain gives c: its first row in the sorted column, 0 when absent. */
  function Start(bwt: string, c: char): nat
  {
    if Count(c, bwt) > 0 then Smaller(bwt, c) else 0
  }

  /** The starting positions of the letters of "$ACGT". */
  predicate IsStarts(bwt: string, position: seq<int>)
  {
    |position| == |ALPHABET| && forall k :: 0 <= k < |ALPHABET| ==> position[k] == Start(bwt, ALPHABET[k])
  }

  /** Where c occurs, its block of the sorted column begins at Start. */
  lemma StartIsFirstRow(bwt: string, c: char)
    requires Count(c, bwt) > 0
    ensures Start(bwt, c) < |bwt| && FirstColumn(bwt)[Start(bwt, c)] == c
    ensures forall q :: 0 <= q < Start(bwt, c) ==> FirstColumn(bwt)[q] < c
  {
    var r := FirstOccurrence(c, bwt);
    FirstColumnAtLF(bwt, r);
    var f := FirstColumn(bwt);
    SmallerRearranged(f, bwt, c);
    forall q | 0 <= q < Start(bwt, c)
      ensures f[q] < c
    {
      SortedRank(f, q);
      if c <= f[q] {
        SmallerMono(f, c, f[q]);
      }
    }
  }

  /** The first row holding x. */
  lemma FirstOccurrence<T>(x: T, s: seq<T>) returns (r: nat)
    requires Count(x, s) > 0
    ensures r < |s| && s[r] == x && Count(x, s[..r]) == 0
  {
    r := 0;
    while s[r] != x
      invariant r < |s| && Count(x, s[..r]) == 0
      decreases |s| - r
    {
      CountPrefixStep(x, s, r);
      r := r + 1;
    }
  }

  /** Fewer characters lie below a smaller bound. */
  lemma SmallerMono(s: string, c: char, d: char)
    requires c <= d
    ensures Smaller(s, c) <= Smaller(s, d)
  {
    if c < d {
      CountBelowMono(c as int, d as int, Codes(s));
    }
  }

  /** The tally loop `for char in bwt: count[char] += 1`. */
  method TallyAlphabet(bwt: string) returns (count: seq<int>)
    requires Over(bwt, ALPHABET)
    ensures IsTally(bwt, count)
  {
    ghost var keys := Codes(bwt);
    AlphabetFacts();
    count := seq(|ALPHABET|, _ => 0);
    for i := 0 to |bwt|
      invariant Tallied(ALPHABET, count, keys, i)
    {
      var idx := IndexOf(ALPHABET, bwt[i]);
      TallyStep(ALPHABET, count, keys, i, idx);
      count := count[idx := count[idx] + 1];
    }
    assert keys[..|bwt|] == keys;
    forall k | 0 <= k < |ALPHABET|
      ensures count[k] == Count(ALPHABET[k], bwt)
    {
      CountCodes(ALPHABET[k], bwt);
    }
  }

  /** The chain state after letter j - 1: where each letter's block starts, and the end of the last present block. */
  predicate ChainedUpTo(bwt: string, count: seq<int>, position: seq<int>, previous: nat, j: nat)
  {
    |count| == |ALPHABET| && |position| == |ALPHABET| && previous < j <= |ALPHABET|
    && position[previous] + count[previous] == SumCounts(ALPHABET, j, Codes(bwt))
    && (forall k :: 0 <= k < j ==> position[k] == Start(bwt, ALPHABET[k]))
    && (forall k :: j <= k < |ALPHABET| ==> position[k] == 0)
  }

  lemma ChainStep(bwt: string, count: seq<int>, position: seq<int>, previous: nat, j: nat)
    requires Over(bwt, ALPHABET) && IsTally(bwt, count) && j < |ALPHABET|
    requires ChainedUpTo(bwt, count, position, previous, j)
    ensures count[j] > 0 ==> ChainedUpTo(bwt, count, position[j := position[previous] + count[previous]], j, j + 1)
    ensures count[j] <= 0 ==> ChainedUpTo(bwt, count, position, previous, j + 1)
  {
    AlphabetFacts();
    KeysOver(bwt, ALPHABET);
    SumCountsBelow(ALPHABET, j, Codes(bwt));
    CountCodes(ALPHABET[j], bwt);
  }

  /**
   * The position chain: `position['$'] = 0`, then each present letter starts
   * where the last present letter before it ends; absent letters keep 0.
   */
  method ComputeStarts(ghost bwt: string, count: seq<int>) returns (position: seq<int>)
    requires Over(bwt, ALPHABET) && IsTally(bwt, count)
    ensures |position| == |ALPHABET| && forall k :: 0 <= k < |ALPHABET| ==> position[k] == Start(bwt, ALPHABET[k])
  {
    AlphabetFacts();
    KeysOver(bwt, ALPHABET);
    position := seq(|ALPHABET|, _ => 0);
    position := position[0 := 0];
    var previous := 0;
    SumCountsBelow(ALPHABET, 0, Codes(bwt));
    CountCodes(ALPHABET[0], bwt);
    assert ChainedUpTo(bwt, count, position, previous, 1);
    for j := 1 to |ALPHABET|
      invariant ChainedUpTo(bwt, count, position, previous, j)
    {
      ChainStep(bwt, count, position, previous, j);
      if count[j] > 0 {
        position := position[j := position[previous] + count[previous]];
        previous := j;
      }
    }
  }

  /** The scatter pass after i rows: each letter's position has moved past its copies among them, each placed at its LF row. */
  predicate Scattered(bwt: string, position: seq<int>, out: string, i: nat)
  {
    i <= |bwt| && |position| == |ALPHABET| && |out| == |bwt|
    && (forall k :: 0 <= k < |ALPHABET| ==> position[k] == Start(bwt, ALPHABET[k]) + Count(ALPHABET[k], bwt[..i]))
    && (forall j :: 0 <= j < i ==> out[LF(bwt, j)] == bwt[j])
  }

  /** Before the scatter pass each letter's position is its start. */
  lemma ScatterInit(bwt: string, position: seq<int>, out: string)
    requires |position| == |ALPHABET| && |out| == |bwt|
    requires forall k :: 0 <= k < |ALPHABET| ==> position[k] == Start(bwt, ALPHABET[k])
    ensures Scattered(bwt, position, out, 0)
  {
  }

  /** The position of the letter of row i is LF(i): moving it on keeps the scatter invariant. */
  lemma PositionIsLF(bwt: string, position: seq<int>, i: nat, idx: nat)
    requires i < |bwt| && |position| == |ALPHABET| && idx < |ALPHABET| && ALPHABET[idx] == bwt[i]
    requires forall k :: 0 <= k < |ALPHABET| ==> position[k] == Start(bwt, ALPHABET[k]) + Count(ALPHABET[k], bwt[..i])
    ensures position[idx] == LF(bwt, i)
    ensures forall k :: 0 <= k < |ALPHABET| ==>
      position[idx := position[idx] + 1][k] == Start(bwt, ALPHABET[k]) + Count(ALPHABET[k], bwt[..i + 1])
  {
    AlphabetFacts();
    CountPositive(bwt[i], bwt, i);
    forall k | 0 <= k < |ALPHABET|
      ensures Count(ALPHABET[k], bwt[..i + 1]) == Count(ALPHABET[k], bwt[..i]) + (if k == idx then 1 else 0)
    {
      CountPrefixStep(ALPHABET[k], bwt, i);
    }
  }

  /** Rows i and j < i go to different rows of the sorted column. */
  lemma LFInjective(bwt: string, j: nat, i: nat)
    requires j < i < |bwt|
    ensures LF(bwt, j) != LF(bwt, i)
  {
    DestOrder(Codes(bwt), j, i);
  }

  lemma ScatterStep(bwt: string, position: seq<int>, out: string, i: nat, idx: nat)
    requires i < |bwt| && idx < |ALPHABET| && ALPHABET[idx] == bwt[i]
    requires Scattered(bwt, position, out, i)
    ensures position[idx] == LF(bwt, i)
    ensures Scattered(bwt, position[idx := position[idx] + 1], out[position[idx] := bwt[i]], i + 1)
  {
    PositionIsLF(bwt, position, i, idx);
    forall j | 0 <= j < i
      ensures LF(bwt, j) != LF(bwt, i)
    {
      LFInjective(bwt, j, i);
    }
  }

  /** Once every row is placed the output is the sorted column. */
  lemma ScatteredAll(bwt: string, position: seq<int>, out: string)
    requires Scattered(bwt, position, out, |bwt|)
    ensures out == FirstColumn(bwt)
  {
    forall q | 0 <= q < |bwt|
      ensures out[q] == FirstColumn(bwt)[q]
    {
      var r := LFOnto(bwt, q);
      FirstColumnAtLF(bwt, r);
    }
  }

  /**
   * `_counting_sort` of the inverse transform: tally, position chain, then
   * `sorted_bwt[position[char]] = char; position[char] += 1` for every row.
   */
  method CountingSortColumn(bwt: string) returns (sorted: string)
    requires Over(bwt, ALPHABET)
    ensures sorted == FirstColumn(bwt)
  {
    var count := TallyAlphabet(bwt);
    var position := ComputeStarts(bwt, count);
    sorted := seq(|bwt|, _ => ' ');
    ScatterInit(bwt, position, sorted);
    for i := 0 to |bwt|
      invariant Scattered(bwt, position, sorted, i)
    {
      var idx := IndexOf(ALPHABET, bwt[i]);
      ScatterStep(bwt, position, sorted, i, idx);
      sorted := sorted[position[idx] := bwt[i]];
      position := position[idx := position[idx] + 1];
    }
    ScatteredAll(bwt, position, sorted);
  }
}
