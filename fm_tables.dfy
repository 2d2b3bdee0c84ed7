/**
 * The `occ_counts_before` tables of the pattern counters: for a symbol c and
 * a row j of the transform, the number of occurrences of c above row j.  The
 * copies lay the table out differently (a dict keyed by symbol and row, a
 * dict of per-symbol lists, a list of rows, a two-dimensional buffer, or
 * per-symbol lists of the rows just below each occurrence) and fill it with
 * different loops; each layout has its predicate here and each filling loop
 * is proved to produce it.
 */
module OccurrenceTables {
  import opened StringSpec
  import opened CharacterSort
  import opened Starts
  import opened SearchStarts

  function Min(a: int, b: int): int
  {
    if a <= b then a else b
  }

  /** counts[j] is the number of occurrences of c in `bwt[:j]`, for every row j from 0 to len(bwt). */
  predicate IsCountList(bwt: string, c: char, counts: seq<int>)
  {
    |counts| == |bwt| + 1 && forall j :: 0 <= j <= |bwt| ==> counts[j] == Count(c, bwt[..j])
  }

  /** A dict keyed by `(symbol, row)` for the symbols of bwt (bwmatching_1). */
  ghost predicate IsPairTable(bwt: string, occ: map<(char, int), int>)
  {
    (forall c, j :: (c, j) in occ <==> c in bwt && 0 <= j <= |bwt|)
    && forall c, j :: (c, j) in occ ==> occ[(c, j)] == Count(c, bwt[..j])
  }

  /** A dict of count lists keyed by the symbols of bwt (bwtmatching_11). */
  predicate IsListMap(bwt: string, occ: map<char, seq<int>>)
  {
    (forall c :: c in occ <==> c in bwt) && forall c :: c in occ ==> IsCountList(bwt, c, occ[c])
  }

  /** One count list per letter of "$ACGT", indexed `[letter][row]`. */
  predicate IsColumnTable(bwt: string, occ: seq<seq<int>>)
  {
    |occ| == |ALPHABET| && forall k :: 0 <= k < |ALPHABET| ==> IsCountList(bwt, ALPHABET[k], occ[k])
  }

  /** The same counts indexed `[row][letter]` (bwtmatching_9). */
  predicate IsRowTable(bwt: string, occ: seq<seq<int>>)
  {
    |occ| == |bwt| + 1
    && forall j :: 0 <= j <= |bwt| ==>
      |occ[j]| == |ALPHABET| && forall k :: 0 <= k < |ALPHABET| ==> occ[j][k] == Count(ALPHABET[k], bwt[..j])
  }

  /** The same counts in a `(len(bwt) + 1) x 5` buffer indexed `[row, letter]` (bwtmatching_15). */
  predicate IsGrid(bwt: string, occ: array2<int>)
    reads occ
  {
    occ.Length0 == |bwt| + 1 && occ.Length1 == |ALPHABET|
    && forall j, k :: 0 <= j <= |bwt| && 0 <= k < |ALPHABET| ==> occ[j, k] == Count(ALPHABET[k], bwt[..j])
  }

  /** The row numbers i + 1 of the occurrences `bwt[i] == c`, in order (bwmatching_7, bwtmatching_8). */
  function Positions(bwt: string, c: char): (r: seq<int>)
    decreases |bwt|
  {
    if |bwt| == 0 then [] else Positions(bwt[..|bwt| - 1], c) + (if bwt[|bwt| - 1] == c then [|bwt|] else [])
  }

  /** One position list per letter of "$ACGT". */
  predicate IsPositionTable(bwt: string, occ: seq<seq<int>>)
  {
    |occ| == |ALPHABET| && forall k :: 0 <= k < |ALPHABET| ==> occ[k] == Positions(bwt, ALPHABET[k])
  }

  /** p is strictly increasing and its entries are rows 1 to n. */
  predicate IsRowList(p: seq<int>, n: int)
  {
    (forall a, b :: 0 <= a < b < |p| ==> p[a] < p[b]) && forall a :: 0 <= a < |p| ==> 1 <= p[a] <= n
  }

  /** A position list is strictly increasing and its entries are rows 1 to len(bwt). */
  lemma {:induction false} PositionsShape(bwt: string, c: char)
    ensures IsRowList(Positions(bwt, c), |bwt|)
    decreases |bwt|
  {
    var n := |bwt|;
    if n > 0 {
      var front := bwt[..n - 1];
      PositionsShape(front, c);
      assert Positions(bwt, c) == Positions(front, c) + (if bwt[n - 1] == c then [n] else []);
    }
  }

  /**
   * The occurrences of c above row j are exactly the entries of the
   * position list that are at most j: they come first, and all entries
   * after them exceed j.
   */
  lemma {:induction false} PositionsSplit(bwt: string, c: char, j: nat)
    requires j <= |bwt|
    ensures var p := Positions(bwt, c);
      Count(c, bwt[..j]) <= |p|
      && (forall a :: 0 <= a < Count(c, bwt[..j]) ==> p[a] <= j)
      && (forall a :: Count(c, bwt[..j]) <= a < |p| ==> p[a] > j)
    decreases |bwt|
  {
    var n := |bwt|;
    if n > 0 {
      var front := bwt[..n - 1];
      var p := Positions(bwt, c);
      if j == n {
        PositionsShape(bwt, c);
        PositionsLength(bwt, c);
        assert bwt[..j] == bwt;
      } else {
        PositionsSplit(front, c, j);
        assert front[..j] == bwt[..j];
        PositionsShape(front, c);
      }
    }
  }

  /** A position list has one entry per occurrence. */
  lemma {:induction false} PositionsLength(bwt: string, c: char)
    ensures |Positions(bwt, c)| == Count(c, bwt)
    decreases |bwt|
  {
    if |bwt| > 0 {
      PositionsLength(bwt[..|bwt| - 1], c);
    }
  }

  /** Row i of the nested-increment loop: the counts of rows after i gain the symbol bwt[i]. */
  lemma IncrementStep(bwt: string, c: char, i: nat, j: int)
    requires i < |bwt| && 0 <= j
    ensures Count(c, bwt[..Min(i + 1, j)]) == Count(c, bwt[..Min(i, j)]) + (if bwt[i] == c && i < j then 1 else 0)
  {
    if i < j {
      CountPrefixStep(c, bwt, i);
    }
  }

  /** The keys `(c, j)` with c in alphabet and j below i, or equal to i with c already handled. */
  ghost predicate PairKeys(occ: map<(char, int), int>, alphabet: set<char>, i: int, remaining: set<char>)
  {
    forall c, j :: (c, j) in occ <==> c in alphabet && (0 <= j < i || (j == i && c !in remaining))
  }

  /** The dict of bwmatching_1 after i rows of the nested-increment loop, and the increments of row i up to row `below`. */
  ghost predicate PairsUpTo(bwt: string, occ: map<(char, int), int>, i: nat, below: int)
  {
    forall c, j :: (c, j) in occ && 0 <= j ==>
      occ[(c, j)] == Count(c, bwt[..Min(i, Min(j, |bwt|))]) + (if i < |bwt| && bwt[i] == c && i < j < below then 1 else 0)
  }

  /** The first loop of bwmatching_1: `occ_counts_before[(char, i)] = 0` for every symbol of the alphabet and every row. */
  method ZeroPairs(alphabet: set<char>, dim: nat) returns (occ: map<(char, int), int>)
    ensures PairKeys(occ, alphabet, dim + 1, alphabet)
    ensures forall c, j :: (c, j) in occ ==> occ[(c, j)] == 0
  {
    occ := map[];
    for i := 0 to dim + 1
      invariant PairKeys(occ, alphabet, i, alphabet)
      invariant forall c, j :: (c, j) in occ ==> occ[(c, j)] == 0
    {
      var remaining := alphabet;
      while remaining != {}
        invariant remaining <= alphabet
        invariant PairKeys(occ, alphabet, i, remaining)
        invariant forall c, j :: (c, j) in occ ==> occ[(c, j)] == 0
        decreases |remaining|
      {
        var symbol :| symbol in remaining;
        occ := occ[(symbol, i) := 0];
        remaining := remaining - {symbol};
      }
      assert PairKeys(occ, alphabet, i + 1, alphabet);
    }
  }

  /** One increment of the nested loop of bwmatching_1. */
  lemma PairsIncrement(bwt: string, occ: map<(char, int), int>, alphabet: set<char>, i: nat, j: nat)
    requires i < j <= |bwt| && bwt[i] in alphabet
    requires PairKeys(occ, alphabet, |bwt| + 1, alphabet) && PairsUpTo(bwt, occ, i, j)
    ensures (bwt[i], j) in occ
    ensures PairKeys(occ[(bwt[i], j) := occ[(bwt[i], j)] + 1], alphabet, |bwt| + 1, alphabet)
    ensures PairsUpTo(bwt, occ[(bwt[i], j) := occ[(bwt[i], j)] + 1], i, j + 1)
  {
  }

  /** After row i the increments of that row have reached every later row. */
  lemma PairsRowDone(bwt: string, occ: map<(char, int), int>, i: nat)
    requires i < |bwt| && PairsUpTo(bwt, occ, i, |bwt| + 1)
    requires forall c, j :: (c, j) in occ ==> j <= |bwt|
    ensures PairsUpTo(bwt, occ, i + 1, i + 2)
  {
    forall c, j | (c, j) in occ && 0 <= j
      ensures occ[(c, j)] == Count(c, bwt[..Min(i + 1, Min(j, |bwt|))])
    {
      IncrementStep(bwt, c, i, Min(j, |bwt|));
    }
  }

  /** The nested loop of bwmatching_1: every row i adds one to `(bwt[i], j)` for all rows j after it. */
  method IncrementPairs(bwt: string, alphabet: set<char>, zeroed: map<(char, int), int>) returns (occ: map<(char, int), int>)
    requires forall c :: c in alphabet <==> c in bwt
    requires PairKeys(zeroed, alphabet, |bwt| + 1, alphabet)
    requires forall c, j :: (c, j) in zeroed ==> zeroed[(c, j)] == 0
    ensures IsPairTable(bwt, occ)
  {
    var dim := |bwt|;
    occ := zeroed;
    for i := 0 to dim
      invariant PairKeys(occ, alphabet, dim + 1, alphabet)
      invariant PairsUpTo(bwt, occ, i, i + 1)
    {
      var symbol := bwt[i];
      for j := i + 1 to dim + 1
        invariant PairKeys(occ, alphabet, dim + 1, alphabet)
        invariant PairsUpTo(bwt, occ, i, j)
      {
        PairsIncrement(bwt, occ, alphabet, i, j);
        occ := occ[(symbol, j) := occ[(symbol, j)] + 1];
      }
      PairsRowDone(bwt, occ, i);
    }
    forall c, j | (c, j) in occ
      ensures 0 <= j <= dim && occ[(c, j)] == Count(c, bwt[..j])
    {
    }
  }

  /** `preprocess_bwt` of bwmatching_1: first-row starts, and a zero entry for every key, then the nested increments. */
  method PreprocessPairs(bwt: string) returns (starts: map<char, int>, occ: map<(char, int), int>)
    ensures IsStartMap(bwt, starts)
    ensures IsPairTable(bwt, occ)
  {
    starts := FirstIndexStarts(bwt);
    var alphabet := set c | c in bwt;
    var zeroed := ZeroPairs(alphabet, |bwt|);
    occ := IncrementPairs(bwt, alphabet, zeroed);
  }

  /** The count list of bwtmatching_11: append the counter, then count the row. */
  method CountsBefore(bwt: string, alpha: char) returns (count: seq<int>)
    ensures IsCountList(bwt, alpha, count)
  {
    var counter := 0;
    count := [];
    for i := 0 to |bwt|
      invariant |count| == i && counter == Count(alpha, bwt[..i])
      invariant forall j :: 0 <= j < i ==> count[j] == Count(alpha, bwt[..j])
    {
      count := count + [counter];
      CountPrefixStep(alpha, bwt, i);
      if bwt[i] == alpha {
        counter := counter + 1;
      }
    }
    count := count + [counter];
  }

  /** The count list of the suffix-array matcher: start from `[0]`, count the row, then append the counter. */
  method CountsAfter(bwt: string, alpha: char) returns (count: seq<int>)
    ensures IsCountList(bwt, alpha, count)
  {
    var counter := 0;
    count := [counter];
    for i := 0 to |bwt|
      invariant |count| == i + 1 && counter == Count(alpha, bwt[..i])
      invariant forall j :: 0 <= j <= i ==> count[j] == Count(alpha, bwt[..j])
    {
      CountPrefixStep(alpha, bwt, i);
      if bwt[i] == alpha {
        counter := counter + 1;
      }
      count := count + [counter];
    }
  }

  /** `preprocess_bwt` of bwtmatching_11: first-row starts and one count list per symbol of bwt. */
  method PreprocessLists(bwt: string) returns (starts: map<char, int>, occ: map<char, seq<int>>)
    ensures IsStartMap(bwt, starts)
    ensures IsListMap(bwt, occ)
  {
    starts := FirstIndexStarts(bwt);
    var alphabet := set c | c in bwt;
    occ := map[];
    var remaining := alphabet;
    while remaining != {}
      invariant remaining <= alphabet
      invariant forall c :: c in occ <==> c in alphabet && c !in remaining
      invariant forall c :: c in occ ==> IsCountList(bwt, c, occ[c])
      decreases |remaining|
    {
      var alpha :| alpha in remaining;
      var count := CountsBefore(bwt, alpha);
      occ := occ[alpha := count];
      remaining := remaining - {alpha};
    }
  }

  /** The column table after i rows of the nested-increment loop, and the increments of row i up to row `below`. */
  predicate ColumnsUpTo(bwt: string, occ: seq<seq<int>>, i: nat, below: int)
  {
    |occ| == |ALPHABET|
    && forall k :: 0 <= k < |ALPHABET| ==>
      (|occ[k]| == |bwt| + 1
       && forall j :: 0 <= j <= |bwt| ==>
         occ[k][j] == Count(ALPHABET[k], bwt[..Min(i, j)]) + (if i < |bwt| && bwt[i] == ALPHABET[k] && i < j < below then 1 else 0))
  }

  /** One increment of the nested loop of bwtmatching_10. */
  lemma ColumnsIncrement(bwt: string, occ: seq<seq<int>>, i: nat, j: nat, idx: nat)
    requires i < j <= |bwt| && idx < |ALPHABET| && ALPHABET[idx] == bwt[i] && ColumnsUpTo(bwt, occ, i, j)
    ensures ColumnsUpTo(bwt, occ[idx := occ[idx][j := occ[idx][j] + 1]], i, j + 1)
  {
    AlphabetFacts();
  }

  lemma ColumnsRowDone(bwt: string, occ: seq<seq<int>>, i: nat)
    requires i < |bwt| && ColumnsUpTo(bwt, occ, i, |bwt| + 1)
    ensures ColumnsUpTo(bwt, occ, i + 1, i + 2)
  {
    forall k, j | 0 <= k < |ALPHABET| && 0 <= j <= |bwt|
      ensures occ[k][j] == Count(ALPHABET[k], bwt[..Min(i + 1, j)])
    {
      IncrementStep(bwt, ALPHABET[k], i, j);
    }
  }

  /** Once every row is done the table holds the prefix counts. */
  lemma ColumnsDone(bwt: string, occ: seq<seq<int>>)
    requires ColumnsUpTo(bwt, occ, |bwt|, |bwt| + 1)
    ensures IsColumnTable(bwt, occ)
  {
    forall k, j | 0 <= k < |ALPHABET| && 0 <= j <= |bwt|
      ensures occ[k][j] == Count(ALPHABET[k], bwt[..j])
    {
      assert Min(|bwt|, j) == j;
    }
  }

  /** The nested loop of bwtmatching_10: `occ_counts_before[char][j] += 1` for every row j after each occurrence. */
  method IncrementColumns(bwt: string) returns (occ: seq<seq<int>>)
    requires Over(bwt, ALPHABET)
    ensures IsColumnTable(bwt, occ)
  {
    var dim := |bwt|;
    occ := seq(|ALPHABET|, _ => seq(dim + 1, _ => 0));
    for i := 0 to dim
      invariant ColumnsUpTo(bwt, occ, i, i + 1)
    {
      var idx := IndexOf(ALPHABET, bwt[i]);
      for j := i + 1 to dim + 1
        invariant ColumnsUpTo(bwt, occ, i, j)
      {
        ColumnsIncrement(bwt, occ, i, j, idx);
        occ := occ[idx := occ[idx][j := occ[idx][j] + 1]];
      }
      ColumnsRowDone(bwt, occ, i);
    }
    ColumnsDone(bwt, occ);
  }

  /** `preprocess_bwt` of bwtmatching_10: zero-test starts and the nested-increment column table. */
  method PreprocessColumns(bwt: string) returns (starts: seq<int>, occ: seq<seq<int>>)
    requires Over(bwt, ALPHABET)
    ensures |starts| == |ALPHABET| && forall k :: 0 <= k < |ALPHABET| ==> starts[k] == ZeroTestStart(bwt, ALPHABET[k])
    ensures IsColumnTable(bwt, occ)
  {
    starts := ZeroTestStarts(bwt);
    occ := IncrementColumns(bwt);
  }

  /** The row table after i rows of the nested-increment loop, and the increments of row i up to row `below`. */
  predicate RowsUpTo(bwt: string, occ: seq<seq<int>>, i: nat, below: int)
  {
    |occ| == |bwt| + 1
    && forall j :: 0 <= j <= |bwt| ==>
      (|occ[j]| == |ALPHABET|
       && forall k :: 0 <= k < |ALPHABET| ==>
         occ[j][k] == Count(ALPHABET[k], bwt[..Min(i, j)]) + (if i < |bwt| && bwt[i] == ALPHABET[k] && i < j < below then 1 else 0))
  }

  /** One increment of the nested loop of bwtmatching_9. */
  lemma RowsIncrement(bwt: string, occ: seq<seq<int>>, i: nat, j: nat, idx: nat)
    requires i < j <= |bwt| && idx < |ALPHABET| && ALPHABET[idx] == bwt[i] && RowsUpTo(bwt, occ, i, j)
    ensures RowsUpTo(bwt, occ[j := occ[j][idx := occ[j][idx] + 1]], i, j + 1)
  {
    AlphabetFacts();
  }

  lemma RowsRowDone(bwt: string, occ: seq<seq<int>>, i: nat)
    requires i < |bwt| && RowsUpTo(bwt, occ, i, |bwt| + 1)
    ensures RowsUpTo(bwt, occ, i + 1, i + 2)
  {
    forall j, k | 0 <= j <= |bwt| && 0 <= k < |ALPHABET|
      ensures occ[j][k] == Count(ALPHABET[k], bwt[..Min(i + 1, j)])
    {
      IncrementStep(bwt, ALPHABET[k], i, j);
    }
  }

  lemma RowsDone(bwt: string, occ: seq<seq<int>>)
    requires RowsUpTo(bwt, occ, |bwt|, |bwt| + 1)
    ensures IsRowTable(bwt, occ)
  {
    forall j, k | 0 <= j <= |bwt| && 0 <= k < |ALPHABET|
      ensures occ[j][k] == Count(ALPHABET[k], bwt[..j])
    {
      assert Min(|bwt|, j) == j;
    }
  }

  /**
   * `_counting_sort` of bwtmatching_9: tally, position chain, a copy of the
   * positions as `starts`, then for every row the scatter into `sorted_bwt`
   * and `occ_counts_before[j][char] += 1` for every row j after it.
   */
  method PreprocessRows(bwt: string) returns (starts: seq<int>, occ: seq<seq<int>>)
    requires Over(bwt, ALPHABET)
    ensures IsStarts(bwt, starts)
    ensures IsRowTable(bwt, occ)
  {
    var dim := |bwt|;
    occ := seq(dim + 1, _ => seq(|ALPHABET|, _ => 0));
    var count := TallyAlphabet(bwt);
    var position := ComputeStarts(bwt, count);
    starts := position;
    var sorted := seq(dim, _ => ' ');
    ScatterInit(bwt, position, sorted);
    AlphabetFacts();
    for i := 0 to dim
      invariant Scattered(bwt, position, sorted, i)
      invariant RowsUpTo(bwt, occ, i, i + 1)
    {
      position, sorted, occ := ScatterRow(bwt, position, sorted, occ, i);
    }
    ScatteredAll(bwt, position, sorted);
    RowsDone(bwt, occ);
  }

  /** One row of `_counting_sort`: drop `bwt[i]` into `sorted_bwt`, then count it in every later row of the table. */
  method ScatterRow(bwt: string, position: seq<int>, sorted: string, occ: seq<seq<int>>, i: nat)
    returns (position': seq<int>, sorted': string, occ': seq<seq<int>>)
    requires Over(bwt, ALPHABET) && i < |bwt|
    requires Scattered(bwt, position, sorted, i) && RowsUpTo(bwt, occ, i, i + 1)
    ensures Scattered(bwt, position', sorted', i + 1) && RowsUpTo(bwt, occ', i + 1, i + 2)
  {
    var dim := |bwt|;
    var idx := IndexOf(ALPHABET, bwt[i]);
    ScatterStep(bwt, position, sorted, i, idx);
    sorted' := sorted[position[idx] := bwt[i]];
    position' := position[idx := position[idx] + 1];
    occ' := occ;
    for j := i + 1 to dim + 1
      invariant RowsUpTo(bwt, occ', i, j)
    {
      RowsIncrement(bwt, occ', i, j, idx);
      occ' := occ'[j := occ'[j][idx := occ'[j][idx] + 1]];
    }
    RowsRowDone(bwt, occ', i);
  }

  /** The columns of the buffer below `index` hold their prefix counts. */
  ghost predicate GridUpTo(bwt: string, occ: array2<int>, index: nat)
    reads occ
  {
    occ.Length0 == |bwt| + 1 && occ.Length1 == |ALPHABET| && index <= |ALPHABET|
    && forall j, k :: 0 <= j <= |bwt| && 0 <= k < index ==> occ[j, k] == Count(ALPHABET[k], bwt[..j])
  }

  /** The inner loop of bwtmatching_15 for one letter: `occ_counts_before[i][index] = counter`, then count the row. */
  method FillColumn(bwt: string, occ: array2<int>, index: nat)
    requires index < |ALPHABET| && GridUpTo(bwt, occ, index)
    modifies occ
    ensures GridUpTo(bwt, occ, index + 1)
  {
    var dim := |bwt|;
    var alpha := ALPHABET[index];
    var counter := 0;
    for i := 0 to dim
      invariant counter == Count(alpha, bwt[..i])
      invariant GridUpTo(bwt, occ, index)
      invariant forall j :: 0 <= j < i ==> occ[j, index] == Count(alpha, bwt[..j])
    {
      occ[i, index] := counter;
      CountPrefixStep(alpha, bwt, i);
      if bwt[i] == alpha {
        counter := counter + 1;
      }
    }
    occ[dim, index] := counter;
  }

  /** `preprocess_bwt` of bwtmatching_15: zero-test starts, then each letter's column of the buffer written row by row. */
  method PreprocessGrid(bwt: string) returns (starts: seq<int>, occ: array2<int>)
    requires Over(bwt, ALPHABET)
    ensures |starts| == |ALPHABET| && forall k :: 0 <= k < |ALPHABET| ==> starts[k] == ZeroTestStart(bwt, ALPHABET[k])
    ensures fresh(occ) && IsGrid(bwt, occ)
  {
    occ := new int[|bwt| + 1, |ALPHABET|];
    starts := ZeroTestStarts(bwt);
    for index := 0 to |ALPHABET|
      invariant GridUpTo(bwt, occ, index)
    {
      FillColumn(bwt, occ, index);
    }
  }

  /** Row i appends i + 1 to the list of its symbol. */
  lemma PositionsStep(bwt: string, occ: seq<seq<int>>, i: nat, idx: nat)
    requires i < |bwt| && idx < |ALPHABET| && ALPHABET[idx] == bwt[i] && IsPositionTable(bwt[..i], occ)
    ensures IsPositionTable(bwt[..i + 1], occ[idx := occ[idx] + [i + 1]])
  {
    AlphabetFacts();
    assert bwt[..i + 1][..i] == bwt[..i];
  }

  /** The position lists of bwmatching_7: `occ_counts_before[char].append(i + 1)` for every row. */
  method PositionLists(bwt: string) returns (occ: seq<seq<int>>)
    requires Over(bwt, ALPHABET)
    ensures IsPositionTable(bwt, occ)
  {
    AlphabetFacts();
    occ := seq(|ALPHABET|, _ => []);
    for i := 0 to |bwt|
      invariant IsPositionTable(bwt[..i], occ)
    {
      var idx := IndexOf(ALPHABET, bwt[i]);
      PositionsStep(bwt, occ, i, idx);
      occ := occ[idx := occ[idx] + [i + 1]];
    }
    assert bwt[..|bwt|] == bwt;
  }

  /** `preprocess_bwt` of bwmatching_7: zero-test starts and position lists. */
  method PreprocessPositions(bwt: string) returns (starts: seq<int>, occ: seq<seq<int>>)
    requires Over(bwt, ALPHABET)
    ensures |starts| == |ALPHABET| && forall k :: 0 <= k < |ALPHABET| ==> starts[k] == ZeroTestStart(bwt, ALPHABET[k])
    ensures IsPositionTable(bwt, occ)
  {
    starts := ZeroTestStarts(bwt);
    occ := PositionLists(bwt);
  }

  /**
   * `_counting_sort` of bwtmatching_8: tally, position chain, a copy of the
   * positions as `starts`, then for every row the scatter into `sorted_bwt`
   * and the append of i + 1 to the row's symbol list.
   */
  method CountingSortPositions(bwt: string) returns (starts: seq<int>, occ: seq<seq<int>>)
    requires Over(bwt, ALPHABET)
    ensures IsStarts(bwt, starts)
    ensures IsPositionTable(bwt, occ)
  {
    var dim := |bwt|;
    occ := seq(|ALPHABET|, _ => []);
    var count := TallyAlphabet(bwt);
    var position := ComputeStarts(bwt, count);
    starts := position;
    var sorted := seq(dim, _ => ' ');
    ScatterInit(bwt, position, sorted);
    AlphabetFacts();
    for i := 0 to dim
      invariant Scattered(bwt, position, sorted, i)
      invariant IsPositionTable(bwt[..i], occ)
    {
      var idx := IndexOf(ALPHABET, bwt[i]);
      ScatterStep(bwt, position, sorted, i, idx);
      sorted := sorted[position[idx] := bwt[i]];
      position := position[idx := position[idx] + 1];
      PositionsStep(bwt, occ, i, idx);
      occ := occ[idx := occ[idx] + [i + 1]];
    }
    ScatteredAll(bwt, position, sorted);
    assert bwt[..dim] == bwt;
  }

  /** `preprocess_bwt` of the suffix-array matcher: zero-test starts and one count list per letter. */
  method PreprocessWithBwt(bwt: string) returns (starts: seq<int>, occ: seq<seq<int>>)
    requires Over(bwt, ALPHABET)
    ensures |starts| == |ALPHABET| && forall k :: 0 <= k < |ALPHABET| ==> starts[k] == ZeroTestStart(bwt, ALPHABET[k])
    ensures IsColumnTable(bwt, occ)
  {
    starts := ZeroTestStarts(bwt);
    occ := [];
    for index := 0 to |ALPHABET|
      invariant |occ| == index && forall k :: 0 <= k < index ==> IsCountList(bwt, ALPHABET[k], occ[k])
    {
      var count := CountsAfter(bwt, ALPHABET[index]);
      occ := occ + [count];
    }
  }
}
