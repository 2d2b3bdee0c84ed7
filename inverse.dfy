/**
 * The copies of inverse_bwt that build the two-column matrix: row q holds
 * the first-column entry (sorted character, its rank in the sorted column)
 * and the last-column entry (bwt character, its rank in bwt), and
 * `occurrences` maps every first-column entry to its row.  Looking the
 * last-column entry of a row up in `occurrences` is the Last-to-First step.
 */
module InverseMatrix {
  import opened StringSpec
  import opened CharacterSort
  import opened LastToFirst
  import opened Starts

  type Entry = (char, int)

  /** The first-column entry of row q. */
  function FirstEntry(bwt: string, q: int): Entry
    requires 0 <= q < |bwt|
  {
    var f := FirstColumn(bwt);
    (f[q], Count(f[q], f[..q]))
  }

  /** The last-column entry of row r. */
  function LastEntry(bwt: string, r: int): Entry
    requires 0 <= r < |bwt|
  {
    (bwt[r], Rank(bwt, r))
  }

  /** The last-column entry of row r is the first-column entry of row LF(r). */
  lemma LastIsFirstAtLF(bwt: string, r: nat)
    requires r < |bwt|
    ensures LastEntry(bwt, r) == FirstEntry(bwt, LF(bwt, r))
  {
    FirstColumnAtLF(bwt, r);
  }

  /** m and occurrences are the matrix of bwt and the index of its first column; no other key is present. */
  predicate IsMatrix(bwt: string, m: seq<(Entry, Entry)>, occurrences: map<Entry, int>)
  {
    |m| == |bwt|
    && (forall q :: 0 <= q < |bwt| ==> m[q] == (FirstEntry(bwt, q), LastEntry(bwt, q)))
    && (forall q :: 0 <= q < |bwt| ==> FirstEntry(bwt, q) in occurrences && occurrences[FirstEntry(bwt, q)] == q)
    && (forall e :: e in occurrences ==> 0 <= occurrences[e] < |bwt| && FirstEntry(bwt, occurrences[e]) == e)
  }

  /** Distinct rows have distinct first-column entries, so occurrences is one-to-one onto the rows. */
  lemma FirstEntriesDistinct(bwt: string, p: nat, q: nat)
    requires p < q < |bwt|
    ensures FirstEntry(bwt, p) != FirstEntry(bwt, q)
  {
    var f := FirstColumn(bwt);
    if f[p] == f[q] {
      SortedRank(f, p);
      SortedRank(f, q);
    }
  }

  /** One step of the walk: the character at row Walk(i) is the one written at dim - 1 - i, and the lookup leads to Walk(i + 1). */
  lemma WalkStep(bwt: string, m: seq<(Entry, Entry)>, occurrences: map<Entry, int>, i: nat)
    requires |bwt| > 0 && IsMatrix(bwt, m, occurrences) && i < |bwt|
    ensures m[Walk(bwt, i)].0.0 == InverseOf(bwt)[|bwt| - 1 - i]
    ensures m[Walk(bwt, i)].1 in occurrences && occurrences[m[Walk(bwt, i)].1] == Walk(bwt, i + 1)
  {
    InverseFromBack(bwt, i);
    LastIsFirstAtLF(bwt, Walk(bwt, i));
    assert Walk(bwt, i + 1) == LF(bwt, Walk(bwt, i));
  }

  /**
   * The walk of `inverse_bwt`: start at the entry of row 0, write its
   * character from the back, and jump through `occurrences` to the row whose
   * first-column entry is the current row's last-column entry.
   */
  method WalkMatrix(bwt: string, m: seq<(Entry, Entry)>, occurrences: map<Entry, int>) returns (text: string)
    requires |bwt| > 0 && IsMatrix(bwt, m, occurrences)
    ensures text == InverseOf(bwt)
  {
    var dim := |bwt|;
    var result := seq(dim, _ => ' ');
    var current := m[0].0;
    var row := occurrences[current];
    for i := 0 to dim
      invariant WalkedFromBack(bwt, m, result, row, current, i)
    {
      result, row, current := WalkRow(bwt, m, occurrences, result, row, current, i);
    }
    WalkedAll(bwt, m, result, row, current);
    text := result;
  }

  /** After i rounds the walk stands at row Walk(i), holding its entry, with the last i characters of the inverse written. */
  predicate WalkedFromBack(bwt: string, m: seq<(Entry, Entry)>, result: string, row: int, current: Entry, i: nat)
  {
    0 < |bwt| && i <= |bwt| && |m| == |bwt| && |result| == |bwt|
    && 0 <= row < |bwt| && row == Walk(bwt, i) && current == m[row].0
    && forall k :: |bwt| - i <= k < |bwt| ==> result[k] == InverseOf(bwt)[k]
  }

  lemma WalkedAll(bwt: string, m: seq<(Entry, Entry)>, result: string, row: int, current: Entry)
    requires WalkedFromBack(bwt, m, result, row, current, |bwt|)
    ensures result == InverseOf(bwt)
  {
  }

  /** One round of the walk: write the current character from the back, then jump through `occurrences`. */
  method WalkRow(bwt: string, m: seq<(Entry, Entry)>, occurrences: map<Entry, int>, result: string, row: int, current: Entry, i: nat)
    returns (result': string, row': int, current': Entry)
    requires IsMatrix(bwt, m, occurrences) && i < |bwt| && WalkedFromBack(bwt, m, result, row, current, i)
    ensures WalkedFromBack(bwt, m, result', row', current', i + 1)
  {
    var dim := |bwt|;
    WalkStep(bwt, m, occurrences, i);
    result' := result[dim - 1 - i := current.0];
    var next := m[row].1;
    row' := occurrences[next];
    current' := m[row'].0;
  }

  /** seen holds the number of earlier copies of every character met in the first row entries of bwt. */
  predicate Seen(bwt: string, seen: map<char, int>, row: nat)
    requires row <= |bwt|
  {
    (forall c :: c in seen ==> seen[c] == Count(c, bwt[..row]))
    && (forall c :: c !in seen ==> Count(c, bwt[..row]) == 0)
  }

  lemma SeenStep(bwt: string, seen: map<char, int>, row: nat)
    requires row < |bwt| && Seen(bwt, seen, row)
    ensures (if bwt[row] in seen then seen[bwt[row]] else 0) == Rank(bwt, row)
    ensures Seen(bwt, seen[bwt[row] := (if bwt[row] in seen then seen[bwt[row]] else 0) + 1], row + 1)
  {
    forall c
      ensures Count(c, bwt[..row + 1]) == Count(c, bwt[..row]) + (if bwt[row] == c then 1 else 0)
    {
      CountPrefixStep(c, bwt, row);
    }
  }

  /** The first rows of the matrix and their index. */
  predicate MatrixUpTo(bwt: string, m: seq<(Entry, Entry)>, occurrences: map<Entry, int>, row: nat)
  {
    PairedUpTo(bwt, m, row) && IndexedUpTo(bwt, occurrences, row)
  }

  /** The first `row` rows pair the first-column and last-column entries. */
  predicate PairedUpTo(bwt: string, m: seq<(Entry, Entry)>, row: nat)
  {
    |m| == row <= |bwt| && forall q :: 0 <= q < row ==> m[q] == (FirstEntry(bwt, q), LastEntry(bwt, q))
  }

  /** occurrences maps the first-column entries of the first `row` rows to their rows, and has no other key. */
  predicate IndexedUpTo(bwt: string, occurrences: map<Entry, int>, row: nat)
  {
    row <= |bwt|
    && (forall q :: 0 <= q < row ==> FirstEntry(bwt, q) in occurrences && occurrences[FirstEntry(bwt, q)] == q)
    && (forall e :: e in occurrences ==> 0 <= occurrences[e] < row && FirstEntry(bwt, occurrences[e]) == e)
  }

  lemma MatrixStep(bwt: string, m: seq<(Entry, Entry)>, occurrences: map<Entry, int>, row: nat)
    requires row < |bwt| && MatrixUpTo(bwt, m, occurrences, row)
    ensures MatrixUpTo(bwt, m + [(FirstEntry(bwt, row), LastEntry(bwt, row))],
                       occurrences[FirstEntry(bwt, row) := row], row + 1)
  {
    PairedStep(bwt, m, row);
    IndexedStep(bwt, occurrences, row);
  }

  lemma PairedStep(bwt: string, m: seq<(Entry, Entry)>, row: nat)
    requires row < |bwt| && PairedUpTo(bwt, m, row)
    ensures PairedUpTo(bwt, m + [(FirstEntry(bwt, row), LastEntry(bwt, row))], row + 1)
  {
  }

  /** A new row's first-column entry is a new key, since distinct rows have distinct entries. */
  lemma IndexedStep(bwt: string, occurrences: map<Entry, int>, row: nat)
    requires row < |bwt| && IndexedUpTo(bwt, occurrences, row)
    ensures IndexedUpTo(bwt, occurrences[FirstEntry(bwt, row) := row], row + 1)
  {
    forall q | 0 <= q < row
      ensures FirstEntry(bwt, q) != FirstEntry(bwt, row)
    {
      FirstEntriesDistinct(bwt, q, row);
    }
  }

  /** At a change of character in the sorted column the new character has no earlier copies. */
  lemma SortedChangeRank(f: string, row: nat)
    requires SortedChars(f) && row < |f| && (row == 0 || f[row] != f[row - 1])
    ensures Count(f[row], f[..row]) == 0
  {
    forall i | 0 <= i < row
      ensures f[..row][i] != f[row]
    {
      assert f[i] <= f[row - 1];
    }
    CountAbsent(f[row], f[..row]);
  }

  /**
   * The loop of `create_matrix` over the rows, given the sorted column:
   * `cpos` counts the repeats of the sorted character (restarting when the
   * character changes; '#' stands for "no previous character"),
   * `num_occurrences` the earlier copies of the bwt character.
   */
  method MatrixFromColumns(bwt: string, sorted: string) returns (m: seq<(Entry, Entry)>, occurrences: map<Entry, int>)
    requires sorted == FirstColumn(bwt) && '#' !in bwt
    ensures IsMatrix(bwt, m, occurrences)
  {
    var dim := |bwt|;
    m := [];
    occurrences := map[];
    var seen: map<char, int> := map[];
    var previous := '#';
    var cpos := 0;
    assert '#' !in multiset(bwt);
    assert '#' !in multiset(sorted);
    for row := 0 to dim
      invariant RowsBuilt(bwt, sorted, m, occurrences, seen, previous, cpos, row)
    {
      m, occurrences, seen, previous, cpos := MatrixRow(bwt, sorted, m, occurrences, seen, previous, cpos, row);
    }
  }

  /** The state of `create_matrix` after `row` rows: the two counters, and the rows built with their index. */
  predicate RowsBuilt(bwt: string, sorted: string, m: seq<(Entry, Entry)>, occurrences: map<Entry, int>,
                      seen: map<char, int>, previous: char, cpos: int, row: nat)
  {
    row <= |bwt| && |sorted| == |bwt|
    && (row > 0 ==> previous == sorted[row - 1] && cpos == Count(previous, sorted[..row - 1]))
    && (row == 0 ==> previous == '#')
    && Seen(bwt, seen, row)
    && MatrixUpTo(bwt, m, occurrences, row)
  }

  /** One row of `create_matrix`: pair the sorted character and the bwt character with their counters. */
  method MatrixRow(bwt: string, sorted: string, m: seq<(Entry, Entry)>, occurrences: map<Entry, int>,
                   seen: map<char, int>, previous: char, cpos: int, row: nat)
    returns (m': seq<(Entry, Entry)>, occurrences': map<Entry, int>, seen': map<char, int>, previous': char, cpos': int)
    requires sorted == FirstColumn(bwt) && '#' !in sorted && row < |bwt|
    requires RowsBuilt(bwt, sorted, m, occurrences, seen, previous, cpos, row)
    ensures RowsBuilt(bwt, sorted, m', occurrences', seen', previous', cpos', row + 1)
  {
    var current := sorted[row];
    var next := bwt[row];
    var npos := if next in seen then seen[next] else 0;
    SeenStep(bwt, seen, row);
    seen' := seen[next := npos + 1];
    if current == previous {
      CountPrefixStep(current, sorted, row - 1);
      cpos' := cpos + 1;
      previous' := previous;
    } else {
      SortedChangeRank(sorted, row);
      cpos' := 0;
      previous' := current;
    }
    MatrixStep(bwt, m, occurrences, row);
    m' := m + [((current, cpos'), (next, npos))];
    occurrences' := occurrences[(current, cpos') := row];
  }

  /** `create_matrix` with `sorted(bwt)` as the first column. */
  method CreateMatrix(bwt: string) returns (m: seq<(Entry, Entry)>, occurrences: map<Entry, int>)
    requires '#' !in bwt
    ensures IsMatrix(bwt, m, occurrences)
  {
    var sorted := FirstColumn(bwt);
    m, occurrences := MatrixFromColumns(bwt, sorted);
  }

  /** `inverse_bwt` over the Python-sorted matrix. */
  method InverseBwt(bwt: string) returns (text: string)
    requires |bwt| > 0 && '#' !in bwt
    ensures text == InverseOf(bwt)
  {
    var m, occurrences := CreateMatrix(bwt);
    text := WalkMatrix(bwt, m, occurrences);
  }

  /** `create_matrix` with the counting-sorted first column. */
  method CreateMatrixCounting(bwt: string) returns (m: seq<(Entry, Entry)>, occurrences: map<Entry, int>)
    requires Over(bwt, ALPHABET)
    ensures IsMatrix(bwt, m, occurrences)
  {
    var sorted := CountingSortColumn(bwt);
    m, occurrences := MatrixFromColumns(bwt, sorted);
  }

  /** `inverse_bwt` over the counting-sorted matrix. */
  method InverseBwtCounting(bwt: string) returns (text: string)
    requires |bwt| > 0 && Over(bwt, ALPHABET)
    ensures text == InverseOf(bwt)
  {
    var m, occurrences := CreateMatrixCounting(bwt);
    text := WalkMatrix(bwt, m, occurrences);
  }

  /** The per-character counters after `row` rows: `num` ranks, `position` rows of the sorted column. */
  predicate CountersUpTo(bwt: string, num: seq<int>, position: seq<int>, row: nat)
  {
    row <= |bwt| && |num| == |ALPHABET| && |position| == |ALPHABET|
    && (forall k :: 0 <= k < |ALPHABET| ==> num[k] == Count(ALPHABET[k], bwt[..row]))
    && (forall k :: 0 <= k < |ALPHABET| ==> position[k] == Start(bwt, ALPHABET[k]) + Count(ALPHABET[k], bwt[..row]))
  }

  /** Every row j < row has its last-column entry, and the row LF(j) its first-column entry. */
  predicate RowsUpTo(bwt: string, m: seq<(Entry, Entry)>, row: nat)
  {
    row <= |bwt| && |m| == |bwt|
    && forall j :: 0 <= j < row ==> m[LF(bwt, j)].0 == LastEntry(bwt, j) && m[j].1 == LastEntry(bwt, j)
  }

  /** Every entry met so far is indexed at its row, and the index holds nothing else. */
  predicate IndexUpTo(bwt: string, occurrences: map<Entry, int>, row: nat)
  {
    row <= |bwt|
    && (forall j :: 0 <= j < row ==> LastEntry(bwt, j) in occurrences && occurrences[LastEntry(bwt, j)] == LF(bwt, j))
    && (forall e :: e in occurrences ==> 0 <= occurrences[e] < |bwt| && FirstEntry(bwt, occurrences[e]) == e)
  }

  lemma CountersStep(bwt: string, num: seq<int>, position: seq<int>, row: nat, idx: nat)
    requires row < |bwt| && idx < |ALPHABET| && ALPHABET[idx] == bwt[row]
    requires CountersUpTo(bwt, num, position, row)
    ensures position[idx] == LF(bwt, row) && (bwt[row], num[idx]) == LastEntry(bwt, row)
    ensures CountersUpTo(bwt, num[idx := num[idx] + 1], position[idx := position[idx] + 1], row + 1)
  {
    AlphabetFacts();
    PositionIsLF(bwt, position, row, idx);
    var num' := num[idx := num[idx] + 1];
    forall k | 0 <= k < |ALPHABET|
      ensures num'[k] == Count(ALPHABET[k], bwt[..row + 1])
    {
      CountPrefixStep(ALPHABET[k], bwt, row);
    }
  }

  lemma RowsStep(bwt: string, m: seq<(Entry, Entry)>, row: nat)
    requires row < |bwt| && RowsUpTo(bwt, m, row)
    ensures var e, p := LastEntry(bwt, row), LF(bwt, row);
      var m1 := m[p := (e, m[p].1)];
      RowsUpTo(bwt, m1[row := (m1[row].0, e)], row + 1)
  {
    var e, p := LastEntry(bwt, row), LF(bwt, row);
    var m1 := m[p := (e, m[p].1)];
    var m' := m1[row := (m1[row].0, e)];
    assert m'[p].0 == e && m'[row].1 == e;
    forall j | 0 <= j < row
      ensures m'[LF(bwt, j)].0 == LastEntry(bwt, j) && m'[j].1 == LastEntry(bwt, j)
    {
      LFInjective(bwt, j, row);
    }
  }

  lemma IndexStep(bwt: string, occurrences: map<Entry, int>, row: nat)
    requires row < |bwt| && IndexUpTo(bwt, occurrences, row)
    ensures IndexUpTo(bwt, occurrences[LastEntry(bwt, row) := LF(bwt, row)], row + 1)
  {
    var e, p := LastEntry(bwt, row), LF(bwt, row);
    LastIsFirstAtLF(bwt, row);
    forall j | 0 <= j < row
      ensures LastEntry(bwt, j) != e
    {
      LFInjective(bwt, j, row);
      LastIsFirstAtLF(bwt, j);
      FirstEntriesDistinct2(bwt, LF(bwt, j), p);
    }
  }

  lemma FirstEntriesDistinct2(bwt: string, p: nat, q: nat)
    requires p < |bwt| && q < |bwt| && p != q
    ensures FirstEntry(bwt, p) != FirstEntry(bwt, q)
  {
    if p < q {
      FirstEntriesDistinct(bwt, p, q);
    } else {
      FirstEntriesDistinct(bwt, q, p);
    }
  }

  /** After the pass every row of the sorted column has been written: the matrix and its index are complete. */
  lemma SinglePassDone(bwt: string, m: seq<(Entry, Entry)>, occurrences: map<Entry, int>)
    requires RowsUpTo(bwt, m, |bwt|) && IndexUpTo(bwt, occurrences, |bwt|)
    ensures IsMatrix(bwt, m, occurrences)
  {
    forall q | 0 <= q < |bwt|
      ensures m[q] == (FirstEntry(bwt, q), LastEntry(bwt, q))
      ensures FirstEntry(bwt, q) in occurrences && occurrences[FirstEntry(bwt, q)] == q
    {
      var j := LFOnto(bwt, q);
      LastIsFirstAtLF(bwt, j);
      assert m[q].0 == LastEntry(bwt, j) && m[q].1 == LastEntry(bwt, q);
      assert occurrences[LastEntry(bwt, j)] == q;
    }
  }

  /**
   * `_counting_sort` of the improved copy: after the tally and the position
   * chain, one pass over bwt fills both columns of the matrix and
   * `occurrences`, keyed by the last-column entry and pointing at the row
   * `position[char]`.
   */
  method CountingSortMatrix(bwt: string) returns (m: seq<(Entry, Entry)>, occurrences: map<Entry, int>)
    requires Over(bwt, ALPHABET)
    ensures IsMatrix(bwt, m, occurrences)
  {
    var dim := |bwt|;
    m := seq(dim, _ => ((' ', 0), (' ', 0)));
    occurrences := map[];
    var num := seq(|ALPHABET|, _ => 0);
    var count := TallyAlphabet(bwt);
    var position := ComputeStarts(bwt, count);
    for row := 0 to dim
      invariant CountersUpTo(bwt, num, position, row)
      invariant RowsUpTo(bwt, m, row)
      invariant IndexUpTo(bwt, occurrences, row)
    {
      var c := bwt[row];
      var idx := IndexOf(ALPHABET, c);
      CountersStep(bwt, num, position, row, idx);
      RowsStep(bwt, m, row);
      IndexStep(bwt, occurrences, row);
      var npos := num[idx];
      num := num[idx := num[idx] + 1];
      occurrences := occurrences[(c, npos) := position[idx]];
      m := m[position[idx] := ((c, npos), m[position[idx]].1)];
      m := m[row := (m[row].0, (c, npos))];
      position := position[idx := position[idx] + 1];
    }
    SinglePassDone(bwt, m, occurrences);
  }

  /** `inverse_bwt` of the improved copy. */
  method InverseBwtSinglePass(bwt: string) returns (text: string)
    requires |bwt| > 0 && Over(bwt, ALPHABET)
    ensures text == InverseOf(bwt)
  {
    var m, occurrences := CountingSortMatrix(bwt);
    text := WalkMatrix(bwt, m, occurrences);
  }
}
