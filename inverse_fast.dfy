/**
 * The copy of inverse_bwt that keeps no matrix: one pass pairs every bwt
 * character with its rank, the position chain gives the starts, and a walk
 * of Last-to-First steps from row 0 spells the text backwards.
 */
module RankedWalk {
  import opened StringSpec
  import opened CharacterSort
  import opened LastToFirst
  import opened Starts
  import opened InverseMatrix

  /** The counters after i characters, and each of them paired with its rank. */
  predicate RankedUpTo(bwt: string, ranks: seq<Entry>, count: seq<int>, i: nat)
  {
    i <= |bwt| && |ranks| == |bwt| && |count| == |ALPHABET|
    && (forall k :: 0 <= k < |ALPHABET| ==> count[k] == Count(ALPHABET[k], bwt[..i]))
    && (forall j :: 0 <= j < i ==> ranks[j] == LastEntry(bwt, j))
  }

  lemma RankedStep(bwt: string, ranks: seq<Entry>, count: seq<int>, i: nat, idx: nat)
    requires i < |bwt| && idx < |ALPHABET| && ALPHABET[idx] == bwt[i]
    requires RankedUpTo(bwt, ranks, count, i)
    ensures RankedUpTo(bwt, ranks[i := (bwt[i], count[idx])], count[idx := count[idx] + 1], i + 1)
  {
    AlphabetFacts();
    forall k | 0 <= k < |ALPHABET|
      ensures count[idx := count[idx] + 1][k] == Count(ALPHABET[k], bwt[..i + 1])
    {
      CountPrefixStep(ALPHABET[k], bwt, i);
    }
  }

  /** The first loop of `counting_sort`: `bwt_with_ranks` and the tally. */
  method RankCharacters(bwt: string) returns (ranks: seq<Entry>, count: seq<int>)
    requires Over(bwt, ALPHABET)
    ensures IsRanks(bwt, ranks)
    ensures IsTally(bwt, count)
  {
    ranks := seq(|bwt|, _ => (' ', 0));
    count := seq(|ALPHABET|, _ => 0);
    for i := 0 to |bwt|
      invariant RankedUpTo(bwt, ranks, count, i)
    {
      var c := bwt[i];
      var idx := IndexOf(ALPHABET, c);
      RankedStep(bwt, ranks, count, i, idx);
      ranks := ranks[i := (c, count[idx])];
      count := count[idx := count[idx] + 1];
    }
    assert bwt[..|bwt|] == bwt;
  }

  /** The jump `position[char] + rank` from a last-column entry is the Last-to-First step. */
  lemma JumpIsLF(bwt: string, r: nat)
    requires r < |bwt|
    ensures Start(bwt, bwt[r]) + Rank(bwt, r) == LF(bwt, r)
  {
    CountPositive(bwt[r], bwt, r);
  }

  /** Over "$ACGT", a bwt that holds '$' has '$' at the top of its sorted column. */
  lemma DollarTopRow(bwt: string)
    requires Over(bwt, ALPHABET) && '$' in bwt
    ensures FirstColumn(bwt)[0] == '$'
  {
    var f := FirstColumn(bwt);
    var i :| 0 <= i < |bwt| && bwt[i] == '$';
    CountPositive('$', bwt, i);
    StartIsFirstRow(bwt, '$');
    assert f[0] in multiset(bwt);
    assert f[0] in ALPHABET;
  }

  /** The letter the walk appends at step k: '$' first, then the last-column character of row Walk(k - 1). */
  function WalkLetter(bwt: string, k: nat): char
    requires |bwt| > 0
  {
    if k == 0 then '$' else bwt[Walk(bwt, k - 1)]
  }

  /** Read backwards, the walk's letters are the inverse with its last character replaced by '$'. */
  lemma WalkLettersReversed(bwt: string, result: seq<char>, text: string)
    requires |bwt| > 0 && |result| == |bwt| && forall k :: 0 <= k < |bwt| ==> result[k] == WalkLetter(bwt, k)
    requires |text| == |bwt| && forall k :: 0 <= k < |bwt| ==> text[k] == result[|bwt| - 1 - k]
    ensures text == InverseOf(bwt)[..|bwt| - 1] + ['$']
  {
    var dim := |bwt|;
    var inverse := InverseOf(bwt);
    forall k | 0 <= k < dim - 1
      ensures text[k] == inverse[k]
    {
      InverseFromLastColumn(bwt, k);
      assert text[k] == WalkLetter(bwt, dim - 1 - k);
    }
    assert text[dim - 1] == WalkLetter(bwt, 0);
    LastReplaced(text, inverse, '$');
  }

  /** Two strings of one length that agree before the last position, the first ending in x. */
  lemma LastReplaced(text: string, other: string, x: char)
    requires 0 < |text| == |other| && text[|text| - 1] == x
    requires forall k :: 0 <= k < |text| - 1 ==> text[k] == other[k]
    ensures text == other[..|text| - 1] + [x]
  {
  }

  /** With '$' in bwt, the replaced character was '$' already. */
  lemma WalkSpellsInverse(bwt: string)
    requires Over(bwt, ALPHABET) && '$' in bwt
    ensures InverseOf(bwt)[..|bwt| - 1] + ['$'] == InverseOf(bwt)
  {
    var inverse := InverseOf(bwt);
    InverseEnd(bwt);
    DollarTopRow(bwt);
    assert inverse == inverse[..|bwt| - 1] + [inverse[|bwt| - 1]];
  }

  /** `bwt_with_ranks`: every bwt character paired with its rank. */
  predicate IsRanks(bwt: string, ranks: seq<Entry>)
  {
    |ranks| == |bwt| && forall j :: 0 <= j < |bwt| ==> ranks[j] == LastEntry(bwt, j)
  }

  /** One jump of the walk: the entry of row r, looked up in `position`, leads to LF(r). */
  lemma JumpStep(bwt: string, ranks: seq<Entry>, position: seq<int>, r: nat)
    requires Over(bwt, ALPHABET) && r < |bwt|
    requires IsRanks(bwt, ranks) && IsStarts(bwt, position)
    ensures ranks[r].0 == bwt[r] && ranks[r].0 in ALPHABET
    ensures position[IndexOf(ALPHABET, ranks[r].0)] + ranks[r].1 == LF(bwt, r)
  {
    JumpIsLF(bwt, r);
  }

  /** The walk after i steps: the letters appended so far, the row reached and the entry held. */
  predicate WalkedUpTo(bwt: string, result: seq<char>, nextRow: int, current: Entry, i: nat)
  {
    |bwt| > 0 && i <= |bwt| && |result| == i && nextRow == Walk(bwt, i) && current.0 == WalkLetter(bwt, i)
    && forall k :: 0 <= k < i ==> result[k] == WalkLetter(bwt, k)
  }

  lemma WalkAdvance(bwt: string, ranks: seq<Entry>, position: seq<int>, result: seq<char>, nextRow: int, current: Entry, i: nat)
    requires Over(bwt, ALPHABET) && IsRanks(bwt, ranks) && IsStarts(bwt, position)
    requires i < |bwt| && WalkedUpTo(bwt, result, nextRow, current, i)
    ensures 0 <= nextRow < |ranks| && ranks[nextRow].0 in ALPHABET
    ensures WalkedUpTo(bwt, result + [current.0], position[IndexOf(ALPHABET, ranks[nextRow].0)] + ranks[nextRow].1, ranks[nextRow], i + 1)
  {
    JumpStep(bwt, ranks, position, nextRow);
    assert Walk(bwt, i + 1) == LF(bwt, Walk(bwt, i));
    assert ranks[nextRow].0 == WalkLetter(bwt, i + 1);
    var extended := result + [current.0];
    forall k | 0 <= k < i + 1
      ensures extended[k] == WalkLetter(bwt, k)
    {
      if k < i {
        assert extended[k] == result[k];
      }
    }
  }

  /** The walk of `counting_sort`: from `('$', 0)`, append the current letter and jump to `position[char] + rank`. */
  method WalkLetters(bwt: string, ranks: seq<Entry>, position: seq<int>) returns (result: seq<char>)
    requires Over(bwt, ALPHABET) && |bwt| > 0
    requires IsRanks(bwt, ranks) && IsStarts(bwt, position)
    ensures |result| == |bwt| && forall k :: 0 <= k < |bwt| ==> result[k] == WalkLetter(bwt, k)
  {
    var nextRow := 0;
    var current: Entry := ('$', nextRow);
    result := [];
    for i := 0 to |bwt|
      invariant WalkedUpTo(bwt, result, nextRow, current, i)
    {
      result, nextRow, current := WalkOnce(bwt, ranks, position, result, nextRow, current, i);
    }
  }

  /** One round of the walk: append the current letter, then jump. */
  method WalkOnce(bwt: string, ranks: seq<Entry>, position: seq<int>, result: seq<char>, nextRow: int, current: Entry, i: nat)
    returns (result': seq<char>, nextRow': int, current': Entry)
    requires Over(bwt, ALPHABET) && IsRanks(bwt, ranks) && IsStarts(bwt, position)
    requires i < |bwt| && WalkedUpTo(bwt, result, nextRow, current, i)
    ensures WalkedUpTo(bwt, result', nextRow', current', i + 1)
  {
    WalkAdvance(bwt, ranks, position, result, nextRow, current, i);
    result' := result + [current.0];
    var next := ranks[nextRow];
    nextRow' := position[IndexOf(ALPHABET, next.0)] + next.1;
    current' := next;
  }

  /**
   * `counting_sort` of the fast copy.  The walk starts from `('$', 0)`, so
   * the text comes out ending in '$' whatever the sorted column holds at
   * row 0.
   */
  method FastInverse(bwt: string) returns (text: string)
    requires Over(bwt, ALPHABET)
    ensures |text| == |bwt|
    ensures |bwt| > 0 ==> text == InverseOf(bwt)[..|bwt| - 1] + ['$']
    ensures '$' in bwt ==> text == InverseOf(bwt)
  {
    var dim := |bwt|;
    var ranks, count := RankCharacters(bwt);
    var position := ComputeStarts(bwt, count);
    if dim == 0 {
      return "";
    }
    var result := WalkLetters(bwt, ranks, position);
    text := seq(dim, k requires 0 <= k < dim => result[dim - 1 - k]);
    WalkLettersReversed(bwt, result, text);
    if '$' in bwt {
      WalkSpellsInverse(bwt);
    }
  }
}
