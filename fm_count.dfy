/**
 * The `count_occurrences` loops of the pattern counters.  Each walks the
 * pattern from its last symbol and narrows `[top, bottom]` with `starts`
 * and one of the occurrence tables; each is proved to compute the
 * backward-search interval of the pattern.  The guarded copies look for
 * `symbol in bwt[top:bottom+1]` first and return 0 at once when it fails,
 * and `None` when bwt is empty; the others return 0 once the interval has
 * emptied.
 */
module BackwardCount {
  import opened StringSpec
  import opened CharacterSort
  import opened Starts
  import opened BackwardSearch
  import opened SearchStarts
  import opened OccurrenceTables

  /** The interval after consuming `p[m:]`, last symbol first: the state of the loops with `i == m - 1`. */
  function IntervalFrom(bwt: string, p: string, m: nat): (r: (int, int))
    ensures IsInterval(|bwt|, r.0, r.1)
    decreases |p| - m
  {
    if m >= |p| then (0, |bwt| - 1)
    else
      var rest := IntervalFrom(bwt, p, m + 1);
      Narrow(bwt, p[m], rest.0, rest.1)
  }

  /** It is the interval of the suffix `p[m:]`. */
  lemma {:induction false} IntervalFromSuffix(bwt: string, p: string, m: nat)
    requires m <= |p|
    ensures IntervalFrom(bwt, p, m) == Interval(bwt, p[m..])
    decreases |p| - m
  {
    if m < |p| {
      IntervalFromSuffix(bwt, p, m + 1);
      assert p[m..][1..] == p[m + 1..];
    }
  }

  /** The whole pattern consumed, the loop holds the interval of the pattern. */
  lemma IntervalFromStart(bwt: string, p: string)
    ensures IntervalFrom(bwt, p, 0) == Interval(bwt, p)
  {
    IntervalFromSuffix(bwt, p, 0);
    assert p[0..] == p;
  }

  /** Once the interval of a suffix of p is empty, p matches no row. */
  lemma EmptiedTail(bwt: string, p: string, m: nat)
    requires m <= |p| && IntervalFrom(bwt, p, m).0 > IntervalFrom(bwt, p, m).1
    ensures MatchCount(bwt, p) == 0
  {
    IntervalFromSuffix(bwt, p, m);
    IntervalFromStart(bwt, p);
    assert p == p[..m] + p[m..];
    EmptyStaysEmpty(bwt, p[..m], p[m..]);
  }

  /** The loops' state with `p[m:]` consumed: `[top, bottom]` is the interval of that suffix. */
  predicate Searched(bwt: string, p: string, m: int, top: int, bottom: int)
  {
    0 <= m <= |p| && top == IntervalFrom(bwt, p, m).0 && bottom == IntervalFrom(bwt, p, m).1
  }

  /** With the whole pattern consumed, the interval is the pattern's and its width the count. */
  lemma SearchedAll(bwt: string, p: string, top: int, bottom: int)
    requires Searched(bwt, p, 0, top, bottom)
    ensures (top, bottom) == Interval(bwt, p) && bottom - top + 1 == MatchCount(bwt, p)
  {
    IntervalFromStart(bwt, p);
  }

  /** Once the interval is empty, the pattern matches no row. */
  lemma SearchedEmpty(bwt: string, p: string, m: int, top: int, bottom: int)
    requires Searched(bwt, p, m, top, bottom) && top > bottom
    ensures MatchCount(bwt, p) == 0
  {
    EmptiedTail(bwt, p, m);
  }

  /** The lookups of bwmatching_1 are one backward step. */
  lemma PairsNarrow(bwt: string, starts: map<char, int>, occ: map<(char, int), int>, c: char, top: int, bottom: int)
    requires IsStartMap(bwt, starts) && IsPairTable(bwt, occ) && IsInterval(|bwt|, top, bottom) && c in bwt
    ensures c in starts && (c, top) in occ && (c, bottom + 1) in occ
    ensures (starts[c] + occ[(c, top)], starts[c] + occ[(c, bottom + 1)] - 1) == Narrow(bwt, c, top, bottom)
  {
  }

  /** The lookups of bwtmatching_11 are one backward step. */
  lemma ListsNarrow(bwt: string, starts: map<char, int>, occ: map<char, seq<int>>, c: char, top: int, bottom: int)
    requires IsStartMap(bwt, starts) && IsListMap(bwt, occ) && IsInterval(|bwt|, top, bottom) && c in bwt
    ensures c in starts && c in occ && |occ[c]| == |bwt| + 1
    ensures (starts[c] + occ[c][top], starts[c] + occ[c][bottom + 1] - 1) == Narrow(bwt, c, top, bottom)
  {
  }

  /** The lookups of bwmatching_1 are one backward step with `p[m]`. */
  lemma PairsStep(bwt: string, starts: map<char, int>, occ: map<(char, int), int>, p: string, m: int, top: int, bottom: int)
    requires IsStartMap(bwt, starts) && IsPairTable(bwt, occ)
    requires 0 <= m < |p| && Searched(bwt, p, m + 1, top, bottom) && p[m] in bwt[top..bottom + 1]
    ensures p[m] in starts && (p[m], top) in occ && (p[m], bottom + 1) in occ
    ensures Searched(bwt, p, m, starts[p[m]] + occ[(p[m], top)], starts[p[m]] + occ[(p[m], bottom + 1)] - 1)
    ensures starts[p[m]] + occ[(p[m], top)] <= starts[p[m]] + occ[(p[m], bottom + 1)] - 1
  {
    PresentKeeps(bwt, p[m], top, bottom);
    PairsNarrow(bwt, starts, occ, p[m], top, bottom);
    assert IntervalFrom(bwt, p, m) == Narrow(bwt, p[m], top, bottom);
  }

  /** The lookups of bwtmatching_11 are one backward step with `p[m]`. */
  lemma ListsStep(bwt: string, starts: map<char, int>, occ: map<char, seq<int>>, p: string, m: int, top: int, bottom: int)
    requires IsStartMap(bwt, starts) && IsListMap(bwt, occ)
    requires 0 <= m < |p| && Searched(bwt, p, m + 1, top, bottom) && p[m] in bwt[top..bottom + 1]
    ensures p[m] in starts && p[m] in occ && 0 <= top && bottom + 1 < |occ[p[m]]|
    ensures Searched(bwt, p, m, starts[p[m]] + occ[p[m]][top], starts[p[m]] + occ[p[m]][bottom + 1] - 1)
    ensures starts[p[m]] + occ[p[m]][top] <= starts[p[m]] + occ[p[m]][bottom + 1] - 1
  {
    PresentKeeps(bwt, p[m], top, bottom);
    ListsNarrow(bwt, starts, occ, p[m], top, bottom);
    assert IntervalFrom(bwt, p, m) == Narrow(bwt, p[m], top, bottom);
  }

  /** A symbol missing from `bwt[top:bottom+1]` ends the guarded loops with no match. */
  lemma AbsentStep(bwt: string, p: string, m: int, top: int, bottom: int)
    requires 0 <= m < |p| && Searched(bwt, p, m + 1, top, bottom) && 0 <= top <= bottom + 1 <= |bwt|
    requires p[m] !in bwt[top..bottom + 1]
    ensures MatchCount(bwt, p) == 0
  {
    AbsentEmpties(bwt, p[m], top, bottom);
    EmptiedTail(bwt, p, m);
  }

  /** The lookups in a column table are one backward step with `p[m]`. */
  lemma ColumnsStep(bwt: string, starts: seq<int>, occ: seq<seq<int>>, p: string, m: int, top: int, bottom: int, k: nat)
    requires IsStarts(bwt, starts) && IsColumnTable(bwt, occ)
    requires 0 <= m < |p| && Searched(bwt, p, m + 1, top, bottom) && k < |ALPHABET| && ALPHABET[k] == p[m]
    ensures k < |starts| && k < |occ| && 0 <= top && bottom + 1 < |occ[k]|
    ensures Searched(bwt, p, m, starts[k] + occ[k][top], starts[k] + occ[k][bottom + 1] - 1)
  {
  }

  /** The lookups in a row table are one backward step with `p[m]`. */
  lemma RowsStep(bwt: string, starts: seq<int>, occ: seq<seq<int>>, p: string, m: int, top: int, bottom: int, k: nat)
    requires IsStarts(bwt, starts) && IsRowTable(bwt, occ)
    requires 0 <= m < |p| && Searched(bwt, p, m + 1, top, bottom) && k < |ALPHABET| && ALPHABET[k] == p[m]
    ensures k < |starts| && 0 <= top && bottom + 1 < |occ| && k < |occ[top]| && k < |occ[bottom + 1]|
    ensures Searched(bwt, p, m, starts[k] + occ[top][k], starts[k] + occ[bottom + 1][k] - 1)
  {
  }

  /** The lookups in the buffer are one backward step with `p[m]`. */
  lemma GridStep(bwt: string, starts: seq<int>, occ: array2<int>, p: string, m: int, top: int, bottom: int, k: nat)
    requires IsStarts(bwt, starts) && IsGrid(bwt, occ)
    requires 0 <= m < |p| && Searched(bwt, p, m + 1, top, bottom) && k < |ALPHABET| && ALPHABET[k] == p[m]
    ensures k < |starts| && k < occ.Length1 && 0 <= top && bottom + 1 < occ.Length0
    ensures Searched(bwt, p, m, starts[k] + occ[top, k], starts[k] + occ[bottom + 1, k] - 1)
  {
  }

  /** `count_occurrences` of bwmatching_1: the pattern is cut down from its end, and the dict is keyed by `(symbol, row)`. */
  method CountCheckedPairs(pattern: string, bwt: string, starts: map<char, int>, occ: map<(char, int), int>) returns (r: Option<int>)
    requires IsStartMap(bwt, starts) && IsPairTable(bwt, occ)
    ensures r == if |bwt| == 0 then None else Some(MatchCount(bwt, pattern))
  {
    var dim := |bwt|;
    var top := 0;
    var bottom := dim - 1;
    var rest := pattern;
    while top <= bottom
      invariant |rest| <= |pattern| && rest == pattern[..|rest|]
      invariant Searched(bwt, pattern, |rest|, top, bottom)
      invariant dim > 0 ==> top <= bottom
      decreases |rest|
    {
      if |rest| > 0 {
        var symbol := rest[|rest| - 1];
        rest := rest[..|rest| - 1];
        if symbol in bwt[top..bottom + 1] {
          PairsStep(bwt, starts, occ, pattern, |rest|, top, bottom);
          top := starts[symbol] + occ[(symbol, top)];
          bottom := starts[symbol] + occ[(symbol, bottom + 1)] - 1;
        } else {
          AbsentStep(bwt, pattern, |rest|, top, bottom);
          return Some(0);
        }
      } else {
        SearchedAll(bwt, pattern, top, bottom);
        return Some(bottom - top + 1);
      }
    }
    return None;
  }

  /** `count_occurrences` of bwtmatching_11: an index runs down the pattern, and the dict holds one count list per symbol. */
  method CountCheckedLists(pattern: string, bwt: string, starts: map<char, int>, occ: map<char, seq<int>>) returns (r: Option<int>)
    requires IsStartMap(bwt, starts) && IsListMap(bwt, occ)
    ensures r == if |bwt| == 0 then None else Some(MatchCount(bwt, pattern))
  {
    var dim := |bwt|;
    var top := 0;
    var bottom := dim - 1;
    var i := |pattern| - 1;
    while top <= bottom
      invariant Searched(bwt, pattern, i + 1, top, bottom)
      invariant dim > 0 ==> top <= bottom
      decreases i + 1
    {
      if i >= 0 {
        var symbol := pattern[i];
        if symbol in bwt[top..bottom + 1] {
          ListsStep(bwt, starts, occ, pattern, i, top, bottom);
          top := starts[symbol] + occ[symbol][top];
          bottom := starts[symbol] + occ[symbol][bottom + 1] - 1;
        } else {
          AbsentStep(bwt, pattern, i, top, bottom);
          return Some(0);
        }
      } else {
        SearchedAll(bwt, pattern, top, bottom);
        return Some(bottom - top + 1);
      }
      i := i - 1;
    }
    return None;
  }

  /** `count_occurrences` of bwtmatching_10: no presence test, one count list per letter of "$ACGT". */
  method CountColumns(pattern: string, bwt: string, starts: seq<int>, occ: seq<seq<int>>) returns (r: int)
    requires Over(pattern, ALPHABET) && IsStarts(bwt, starts) && IsColumnTable(bwt, occ)
    ensures r == MatchCount(bwt, pattern)
  {
    var dim := |bwt|;
    var top := 0;
    var bottom := dim - 1;
    var i := |pattern| - 1;
    while top <= bottom
      invariant Searched(bwt, pattern, i + 1, top, bottom)
      decreases i + 1
    {
      if i >= 0 {
        var symbol := pattern[i];
        var index := IndexOf(ALPHABET, symbol);
        ColumnsStep(bwt, starts, occ, pattern, i, top, bottom, index);
        top := starts[index] + occ[index][top];
        bottom := starts[index] + occ[index][bottom + 1] - 1;
      } else {
        SearchedAll(bwt, pattern, top, bottom);
        return bottom - top + 1;
      }
      i := i - 1;
    }
    SearchedEmpty(bwt, pattern, i + 1, top, bottom);
    return 0;
  }

  /** `count_occurrences` of bwtmatching_9: the table is indexed `[row][letter]`. */
  method CountRows(pattern: string, bwt: string, starts: seq<int>, occ: seq<seq<int>>) returns (r: int)
    requires Over(pattern, ALPHABET) && IsStarts(bwt, starts) && IsRowTable(bwt, occ)
    ensures r == MatchCount(bwt, pattern)
  {
    var dim := |bwt|;
    var top := 0;
    var bottom := dim - 1;
    var i := |pattern| - 1;
    while top <= bottom
      invariant Searched(bwt, pattern, i + 1, top, bottom)
      decreases i + 1
    {
      if i >= 0 {
        var symbol := pattern[i];
        var index := IndexOf(ALPHABET, symbol);
        RowsStep(bwt, starts, occ, pattern, i, top, bottom, index);
        top := starts[index] + occ[top][index];
        bottom := starts[index] + occ[bottom + 1][index] - 1;
      } else {
        SearchedAll(bwt, pattern, top, bottom);
        return bottom - top + 1;
      }
      i := i - 1;
    }
    SearchedEmpty(bwt, pattern, i + 1, top, bottom);
    return 0;
  }

  /** `count_occurrences` of bwtmatching_15: the table is the `[row, letter]` buffer. */
  method CountGrid(pattern: string, bwt: string, starts: seq<int>, occ: array2<int>) returns (r: int)
    requires Over(pattern, ALPHABET) && IsStarts(bwt, starts) && IsGrid(bwt, occ)
    ensures r == MatchCount(bwt, pattern)
  {
    var dim := |bwt|;
    var top := 0;
    var bottom := dim - 1;
    var i := |pattern| - 1;
    while top <= bottom
      invariant Searched(bwt, pattern, i + 1, top, bottom)
      decreases i + 1
    {
      if i >= 0 {
        var symbol := pattern[i];
        var index := IndexOf(ALPHABET, symbol);
        GridStep(bwt, starts, occ, pattern, i, top, bottom, index);
        top := starts[index] + occ[top, index];
        bottom := starts[index] + occ[bottom + 1, index] - 1;
      } else {
        SearchedAll(bwt, pattern, top, bottom);
        return bottom - top + 1;
      }
      i := i - 1;
    }
    SearchedEmpty(bwt, pattern, i + 1, top, bottom);
    return 0;
  }

  /** values splits at r into entries at most elt, then entries above it. */
  predicate SplitsAt(values: seq<int>, elt: int, r: int)
  {
    0 <= r <= |values| && (forall k :: 0 <= k < r ==> values[k] <= elt) && (forall k :: r <= k < |values| ==> values[k] > elt)
  }

  /** `_binary_search`: on a strictly increasing list, the number of entries at most elt. */
  method BinarySearch(values: seq<int>, elt: int) returns (r: int)
    requires forall a, b :: 0 <= a < b < |values| ==> values[a] < values[b]
    ensures SplitsAt(values, elt, r)
  {
    var start := 0;
    var end := |values| - 1;
    while start <= end
      invariant 0 <= start <= end + 1 <= |values|
      invariant forall k :: 0 <= k < start ==> values[k] < elt
      invariant forall k :: end < k < |values| ==> values[k] > elt
      decreases end - start
    {
      var mid := (start + end) / 2;
      if elt == values[mid] {
        return mid + 1;
      }
      if elt < values[mid] {
        end := mid - 1;
      } else {
        start := mid + 1;
      }
    }
    return start;
  }

  /** The number of entries of values that are at most elt. */
  function AtMost(values: seq<int>, elt: int): nat
    decreases |values|
  {
    if |values| == 0 then 0
    else AtMost(values[..|values| - 1], elt) + (if values[|values| - 1] <= elt then 1 else 0)
  }

  /** A list that splits at r into entries at most elt and entries above it has r entries at most elt. */
  lemma {:induction false} SplitCount(values: seq<int>, elt: int, r: int)
    requires SplitsAt(values, elt, r)
    ensures AtMost(values, elt) == r
    decreases |values|
  {
    var n := |values|;
    if n > 0 {
      var front := values[..n - 1];
      if r == n {
        SplitCount(front, elt, n - 1);
      } else {
        SplitCount(front, elt, r);
      }
    }
  }

  /** The binary search on the position list of c counts the occurrences of c above row j. */
  lemma SearchCounts(bwt: string, c: char, j: nat, r: int)
    requires j <= |bwt| && SplitsAt(Positions(bwt, c), j, r)
    ensures r == Count(c, bwt[..j])
  {
    PositionsSplit(bwt, c, j);
    SplitCount(Positions(bwt, c), j, r);
    SplitCount(Positions(bwt, c), j, Count(c, bwt[..j]));
  }

  /** The position list of `p[m]` may be binary-searched, for the rows `top` and `bottom + 1`. */
  lemma PositionsStepped(bwt: string, starts: seq<int>, occ: seq<seq<int>>, p: string, m: int, top: int, bottom: int, k: nat)
    requires IsStarts(bwt, starts) && IsPositionTable(bwt, occ)
    requires 0 <= m < |p| && Searched(bwt, p, m + 1, top, bottom) && k < |ALPHABET| && ALPHABET[k] == p[m]
    ensures k < |starts| && k < |occ| && forall a, b :: 0 <= a < b < |occ[k]| ==> occ[k][a] < occ[k][b]
  {
    PositionsShape(bwt, p[m]);
  }

  /** The two binary searches give the counts above `top` and `bottom + 1`: one backward step with `p[m]`. */
  lemma SearchesStep(bwt: string, starts: seq<int>, occ: seq<seq<int>>, p: string, m: int, top: int, bottom: int, k: nat, above: int, through: int)
    requires IsStarts(bwt, starts) && IsPositionTable(bwt, occ)
    requires 0 <= m < |p| && Searched(bwt, p, m + 1, top, bottom) && k < |ALPHABET| && ALPHABET[k] == p[m]
    requires k < |occ| && SplitsAt(occ[k], top, above) && SplitsAt(occ[k], bottom + 1, through)
    ensures k < |starts| && Searched(bwt, p, m, starts[k] + above, starts[k] + through - 1)
  {
    SearchCounts(bwt, p[m], top, above);
    SearchCounts(bwt, p[m], bottom + 1, through);
  }

  /** `count_occurrences` of bwmatching_7 and bwtmatching_8: the counts come from binary searches on the position lists. */
  method CountBinarySearch(pattern: string, bwt: string, starts: seq<int>, occ: seq<seq<int>>) returns (r: int)
    requires Over(pattern, ALPHABET) && IsStarts(bwt, starts) && IsPositionTable(bwt, occ)
    ensures r == MatchCount(bwt, pattern)
  {
    var dim := |bwt|;
    var top := 0;
    var bottom := dim - 1;
    var i := |pattern| - 1;
    while top <= bottom
      invariant Searched(bwt, pattern, i + 1, top, bottom)
      decreases i + 1
    {
      if i >= 0 {
        top, bottom := SearchStep(pattern, bwt, starts, occ, i, top, bottom);
      } else {
        IntervalFromStart(bwt, pattern);
        return bottom - top + 1;
      }
      i := i - 1;
    }
    SearchedEmpty(bwt, pattern, i + 1, top, bottom);
    return 0;
  }

  /** One round of CountBinarySearch: narrow the rows by `pattern[i]` with two binary searches. */
  method SearchStep(pattern: string, bwt: string, starts: seq<int>, occ: seq<seq<int>>, i: int, top: int, bottom: int)
    returns (top': int, bottom': int)
    requires Over(pattern, ALPHABET) && IsStarts(bwt, starts) && IsPositionTable(bwt, occ)
    requires 0 <= i < |pattern| && Searched(bwt, pattern, i + 1, top, bottom)
    ensures Searched(bwt, pattern, i, top', bottom')
  {
    var symbol := pattern[i];
    var index := IndexOf(ALPHABET, symbol);
    PositionsStepped(bwt, starts, occ, pattern, i, top, bottom, index);
    var above := BinarySearch(occ[index], top);
    var through := BinarySearch(occ[index], bottom + 1);
    SearchesStep(bwt, starts, occ, pattern, i, top, bottom, index, above, through);
    top' := starts[index] + above;
    bottom' := starts[index] + through - 1;
  }

  /** The rows `[top, bottom + 1)` of the pattern's interval, `None` when it is empty. */
  function RowRange(bwt: string, p: string): Option<(int, int)>
  {
    var iv := Interval(bwt, p);
    if iv.0 > iv.1 then None else Some((iv.0, iv.1 + 1))
  }

  /** The range is absent exactly when the pattern matches no row, and otherwise spans MatchCount rows. */
  lemma RowRangeCount(bwt: string, p: string)
    ensures RowRange(bwt, p) == None <==> MatchCount(bwt, p) == 0
    ensures RowRange(bwt, p).Some? ==> RowRange(bwt, p).value.1 - RowRange(bwt, p).value.0 == MatchCount(bwt, p)
  {
  }

  lemma SearchedRange(bwt: string, p: string, top: int, bottom: int)
    requires Searched(bwt, p, 0, top, bottom) && top <= bottom
    ensures RowRange(bwt, p) == Some((top, bottom + 1))
  {
    SearchedAll(bwt, p, top, bottom);
  }

  lemma SearchedNoRange(bwt: string, p: string, m: int, top: int, bottom: int)
    requires Searched(bwt, p, m, top, bottom) && top > bottom
    ensures RowRange(bwt, p) == None
  {
    SearchedEmpty(bwt, p, m, top, bottom);
  }

  /** `return_occurrences` of the suffix-array matcher: the rows `[top, bottom + 1)` of the interval, `None` when it is empty. */
  method ReturnOccurrences(pattern: string, bwt: string, starts: seq<int>, occ: seq<seq<int>>) returns (r: Option<(int, int)>)
    requires Over(pattern, ALPHABET) && IsStarts(bwt, starts) && IsColumnTable(bwt, occ)
    ensures r == RowRange(bwt, pattern)
  {
    var dim := |bwt|;
    var top := 0;
    var bottom := dim - 1;
    var i := |pattern| - 1;
    while top <= bottom
      invariant Searched(bwt, pattern, i + 1, top, bottom)
      decreases i + 1
    {
      if i >= 0 {
        var symbol := pattern[i];
        var index := IndexOf(ALPHABET, symbol);
        ColumnsStep(bwt, starts, occ, pattern, i, top, bottom, index);
        top := starts[index] + occ[index][top];
        bottom := starts[index] + occ[index][bottom + 1] - 1;
      } else {
        SearchedRange(bwt, pattern, top, bottom);
        return Some((top, bottom + 1));
      }
      i := i - 1;
    }
    SearchedNoRange(bwt, pattern, i + 1, top, bottom);
    return None;
  }
}
