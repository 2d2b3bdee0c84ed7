/**
 * The column-rebuilding inverse of week_2/bwtinverse_naive.py.  Column 0 of
 * the sorted rotation matrix is `sorted(bwt)`; round i pairs every row's
 * k-mer (beginning with the bwt character) with that row's character of
 * column i - 1, sorts the k-mers and reads column i off their last symbols.
 * The top row is then read out starting at its second character.
 *
 * Python compares the nested k-mer tuples element by element; they all have
 * the same depth, so they compare as the strings they spell, which is how
 * they are modelled here.
 */
module ColumnRebuild {
  import opened StringSpec
  import opened Sorting
  import opened CountingSort
  import opened NaiveSuffixArray
  import opened SuffixArray
  import opened BurrowsWheeler
  import opened LastToFirst

  /** `list(bwt)`: every character as a k-mer of length one. */
  function Singletons(bwt: string): (k: seq<string>)
    ensures |k| == |bwt| && forall r :: 0 <= r < |bwt| ==> k[r] == [bwt[r]]
  {
    seq(|bwt|, r requires 0 <= r < |bwt| => [bwt[r]])
  }

  /** `list(zip(kmer, column))`: every k-mer extended by its row's character of the column. */
  function Extend(kmer: seq<string>, column: string): (k: seq<string>)
    requires |column| == |kmer|
    ensures |k| == |kmer| && forall r :: 0 <= r < |kmer| ==> k[r] == kmer[r] + [column[r]]
  {
    seq(|kmer|, r requires 0 <= r < |kmer| => kmer[r] + [column[r]])
  }

  /** `"".join([t[-1] for t in sorted(kmer)])`: the last symbols of the sorted k-mers. */
  function ColumnFrom(kmer: seq<string>): (c: string)
    ensures |c| == |kmer|
  {
    Map(LastChar, SortKmers(kmer))
  }

  /** `sorted(kmer)`. */
  function SortKmers(kmer: seq<string>): (r: seq<string>)
    ensures |r| == |kmer|
  {
    StringOrder();
    Sort(kmer, LessEq)
  }

  /** The sorted k-mers are in order and are a rearrangement of the k-mers. */
  lemma SortKmersOrders(kmer: seq<string>)
    ensures SortedStrings(SortKmers(kmer)) && multiset(SortKmers(kmer)) == multiset(kmer)
  {
    StringOrder();
  }

  /**
   * The state after round i - 1 measured against a matrix M: the k-mers are
   * M's rows turned right and cut to i characters, `m[j]` is column j of M
   * for j < i, and `result[k]` is the top row's character k + 1 for k < i - 1.
   */
  ghost predicate Fits(M: seq<string>, i: nat, kmer: seq<string>, m: seq<string>, result: string)
  {
    kmer == TurnedPrefixes(M, i)
    && (forall j :: 0 <= j < i ==> j < |m| && |m[j]| == |M|)
    && (forall j, q :: 0 <= j < i && 0 <= q < |M| ==> j < |M[q]| && j < |m| && q < |m[j]| && m[j][q] == M[q][j])
    && (forall k :: 0 <= k < i - 1 ==> k < |result| && 0 < |M| && k + 1 < |M[0]| && result[k] == M[0][k + 1])
  }

  /** The loop state after round i - 1: it fits the sorted rotation matrix of every text whose transform is bwt. */
  ghost predicate Built(bwt: string, i: nat, kmer: seq<string>, m: seq<string>, result: string)
  {
    0 < i <= |bwt| && |m| == |bwt| && |result| == |bwt| && |kmer| == |bwt|
    && (forall j :: 0 <= j < i ==> |m[j]| == |bwt|)
    && forall t :: BwtOf(t) == bwt ==> Fits(SortedMatrix(t), i, kmer, m, result)
  }

  /** Before the loop: `kmer = list(bwt)` and `m[0] = "".join(sorted(column))`. */
  method Prepare(bwt: string) returns (kmer: seq<string>, m: seq<string>, result: string)
    requires |bwt| > 0
    ensures Built(bwt, 1, kmer, m, result)
  {
    var dim := |bwt|;
    result := seq(dim, _ => ' ');
    m := seq(dim, _ => "");
    kmer := seq(dim, r requires 0 <= r < dim => [bwt[r]]);
    assert kmer == Singletons(bwt);
    m := m[0 := FirstColumn(bwt)];
    forall t | BwtOf(t) == bwt
      ensures Fits(SortedMatrix(t), 1, kmer, m, result)
    {
      SortedMatrixIsRotationMatrix(t);
      FirstFits(SortedMatrix(t), bwt, kmer, m, result);
    }
  }

  /** Round i of the loop: extend, sort, read column i into `m[i]` and its top character into `result[i - 1]`. */
  method Advance(bwt: string, i: nat, kmer0: seq<string>, m0: seq<string>, result0: string)
    returns (kmer: seq<string>, m: seq<string>, result: string)
    requires Built(bwt, i, kmer0, m0, result0) && i < |bwt|
    ensures Built(bwt, i + 1, kmer, m, result)
  {
    var previous := m0[i - 1];
    kmer := seq(|bwt|, r requires 0 <= r < |bwt| => kmer0[r] + [previous[r]]);
    assert kmer == Extend(kmer0, previous);
    var sortedKmer := SortKmers(kmer);
    var column := Map(LastChar, sortedKmer);
    assert column == ColumnFrom(kmer);
    m := m0[i := column];
    result := result0[i - 1 := column[0]];
    forall t | BwtOf(t) == bwt
      ensures Fits(SortedMatrix(t), i + 1, kmer, m, result)
    {
      SortedMatrixIsRotationMatrix(t);
      NextFits(SortedMatrix(t), bwt, i, kmer0, m0, result0);
    }
  }

  /** After the loop: `result[-1] = m[0][0]`. */
  method Finish(bwt: string, kmer: seq<string>, m: seq<string>, result0: string) returns (result: string)
    requires Built(bwt, |bwt|, kmer, m, result0)
    ensures |result| == |bwt|
    ensures forall t :: BwtOf(t) == bwt ==> result == Rotation(SortedMatrix(t)[0], 1)
  {
    result := result0[|bwt| - 1 := m[0][0]];
    forall t | BwtOf(t) == bwt
      ensures result == Rotation(SortedMatrix(t)[0], 1)
    {
      SortedMatrixIsRotationMatrix(t);
      LastFits(SortedMatrix(t), bwt, kmer, m, result0);
    }
  }

  /**
   * `inverse_bwt` (week_2/bwtinverse_naive.py): for every text whose
   * transform is bwt it returns the top row of the sorted rotation matrix
   * rotated left by one, which for a '$'-terminated text is the text.  An
   * empty bwt makes `m[0] = ...` raise IndexError.
   */
  method InverseBwtNaive(bwt: string) returns (result: string)
    requires |bwt| > 0
    ensures |result| == |bwt|
    ensures forall t :: BwtOf(t) == bwt ==> result == Rotation(SortedMatrix(t)[0], 1)
    ensures forall t :: Terminated(t) && BwtOf(t) == bwt ==> result == t
  {
    var kmer, m;
    kmer, m, result := Prepare(bwt);
    for i := 1 to |bwt|
      invariant Built(bwt, i, kmer, m, result)
    {
      kmer, m, result := Advance(bwt, i, kmer, m, result);
    }
    result := Finish(bwt, kmer, m, result);
    forall t | Terminated(t) && BwtOf(t) == bwt
      ensures result == t
    {
      TopRowTurned(t);
    }
  }

  /** The first character of a row; rows are never empty where it is used. */
  function FirstChar(row: string): char
  {
    if |row| == 0 then '$' else row[0]
  }

  /** A row turned right by one: its last character comes first. */
  function TurnRight(row: string): string
  {
    if |row| == 0 then row else [row[|row| - 1]] + row[..|row| - 1]
  }

  /** The first m characters of a row (all of it when it is shorter). */
  function Take(row: string, m: nat): string
  {
    if m <= |row| then row[..m] else row
  }

  /** Every row turned right by one and cut to m characters. */
  function TurnedPrefixes(M: seq<string>, m: nat): (p: seq<string>)
    ensures |p| == |M| && forall r :: 0 <= r < |M| ==> p[r] == Take(TurnRight(M[r]), m)
  {
    seq(|M|, r requires 0 <= r < |M| => Take(TurnRight(M[r]), m))
  }

  /** Turning rotation j right by one gives rotation j - 1, cyclically. */
  lemma TurnRightRotation(t: string, j: nat)
    requires j < |t|
    ensures TurnRight(Rotation(t, j)) == Rotation(t, if j == 0 then |t| - 1 else j - 1)
  {
    var a, b := TurnRight(Rotation(t, j)), Rotation(t, if j == 0 then |t| - 1 else j - 1);
    forall k | 0 <= k < |t|
      ensures a[k] == b[k]
    {
    }
  }

  /** Turning every rotation right by one moves the last rotation to the front. */
  lemma TurnedRotationsShape(t: string)
    requires |t| > 0
    ensures Map(TurnRight, Rotations(t)) == [Rotations(t)[|t| - 1]] + Rotations(t)[..|t| - 1]
  {
    var n, rots := |t|, Rotations(t);
    var turned, moved := Map(TurnRight, rots), [rots[n - 1]] + rots[..n - 1];
    forall j | 0 <= j < n
      ensures turned[j] == moved[j]
    {
      TurnRightRotation(t, j);
    }
  }

  /** Moving the last element to the front rearranges a sequence. */
  lemma LastToFront<T>(s: seq<T>)
    requires |s| > 0
    ensures multiset([s[|s| - 1]] + s[..|s| - 1]) == multiset(s)
  {
    assert s == s[..|s| - 1] + [s[|s| - 1]];
  }

  /** Turning every rotation right by one rearranges the rotations. */
  lemma TurnedRotations(t: string)
    requires |t| > 0
    ensures multiset(Map(TurnRight, Rotations(t))) == multiset(Rotations(t))
  {
    TurnedRotationsShape(t);
    LastToFront(Rotations(t));
  }

  /**
   * What the rounds need of a matrix M whose last column is bwt: square,
   * sorted rows, turning every row right by one rearranges the rows, and the
   * first column rearranges the last.
   */
  ghost predicate RotationMatrix(M: seq<string>, bwt: string)
  {
    |M| == |bwt|
    && (forall q :: 0 <= q < |M| ==> |M[q]| == |bwt|)
    && SortedStrings(M)
    && (forall q :: 0 <= q < |M| ==> bwt[q] == M[q][|bwt| - 1])
    && multiset(Map(TurnRight, M)) == multiset(M)
    && multiset(Map(FirstChar, M)) == multiset(bwt)
  }

  /** The sorted rotation matrix of any text is such a matrix for its transform. */
  lemma SortedMatrixIsRotationMatrix(t: string)
    ensures RotationMatrix(SortedMatrix(t), BwtOf(t))
  {
    TurnedMatrix(t);
    FirstCharsOfMatrix(t);
    LastColumnOfMatrix(t);
  }

  /** Turning every row of the sorted matrix right by one rearranges its rows. */
  lemma TurnedMatrix(t: string)
    ensures multiset(Map(TurnRight, SortedMatrix(t))) == multiset(SortedMatrix(t))
  {
    if |t| > 0 {
      TurnedRotations(t);
      MapRearrangement(TurnRight, SortedMatrix(t), Rotations(t));
    }
  }

  /** The first characters of the rows rearrange the transform. */
  lemma FirstCharsOfMatrix(t: string)
    ensures multiset(Map(FirstChar, SortedMatrix(t))) == multiset(BwtOf(t))
  {
    var rots := Rotations(t);
    MapRearrangement(FirstChar, SortedMatrix(t), rots);
    assert Map(FirstChar, rots) == t;
    BwtCounts(t);
  }

  /** The transform is the last column of the sorted matrix. */
  lemma LastColumnOfMatrix(t: string)
    ensures forall q :: 0 <= q < |t| ==> BwtOf(t)[q] == SortedMatrix(t)[q][|t| - 1]
  {
    var M := SortedMatrix(t);
    var b := Map(LastChar, M);
    assert b == BwtOf(t);
    forall q | 0 <= q < |t|
      ensures b[q] == M[q][|t| - 1]
    {
      var row := M[q];
      assert |row| == |t|;
      assert b[q] == LastChar(row);
    }
  }

  /** Column 0: `sorted(bwt)` is the first column of the matrix. */
  lemma FirstColumnOfMatrix(M: seq<string>, bwt: string)
    requires RotationMatrix(M, bwt)
    ensures forall q :: 0 <= q < |bwt| ==> FirstColumn(bwt)[q] == M[q][0]
  {
    var n := |bwt|;
    if n > 0 {
      var c0 := Map(FirstChar, M);
      forall p, q | 0 <= p < q < n
        ensures c0[p] <= c0[q]
      {
        assert LessEq(M[p], M[q]);
      }
      SortedCharsUnique(c0, FirstColumn(bwt));
    }
  }

  /** Extending the k-mers of round i - 1 by column i - 1 gives the rows turned right, cut to i + 1 characters. */
  lemma KmersStep(M: seq<string>, bwt: string, i: nat, prev: seq<string>, column: string)
    requires RotationMatrix(M, bwt) && 0 < i < |bwt|
    requires |column| == |bwt| && forall q :: 0 <= q < |bwt| ==> column[q] == M[q][i - 1]
    requires prev == TurnedPrefixes(M, i)
    ensures Extend(prev, column) == TurnedPrefixes(M, i + 1)
  {
    var n := |bwt|;
    var k, e := Extend(prev, column), TurnedPrefixes(M, i + 1);
    forall r | 0 <= r < n
      ensures k[r] == e[r]
    {
      var row := M[r];
      assert k[r] == prev[r] + [column[r]];
      assert prev[r] == Take(TurnRight(row), i);
      assert Take(TurnRight(row), i) == [row[n - 1]] + row[..i - 1];
      assert Take(TurnRight(row), i + 1) == [row[n - 1]] + row[..i];
      assert row[..i] == row[..i - 1] + [row[i - 1]];
    }
  }

  /** Sorting the rows turned right and cut to i + 1 characters lists the rows cut to i + 1 characters. */
  lemma SortedKmers(M: seq<string>, bwt: string, i: nat, g: string -> string)
    requires RotationMatrix(M, bwt) && 0 < i < |bwt|
    requires forall s :: g(s) == Take(s, i + 1)
    ensures SortKmers(TurnedPrefixes(M, i + 1)) == Map(g, M)
  {
    var k, turned, p := TurnedPrefixes(M, i + 1), Map(TurnRight, M), Map(g, M);
    assert k == Map(g, turned);
    MapRearrangement(g, turned, M);
    forall a, b | 0 <= a < b < |p|
      ensures LessEq(p[a], p[b])
    {
      LessEqPrefix(M[a], M[b], i + 1);
    }
    SortKmersOrders(k);
    SortedStringsUnique(SortKmers(k), p);
  }

  /** The last symbols of those sorted k-mers are column i. */
  lemma ColumnOfSorted(M: seq<string>, bwt: string, i: nat)
    requires RotationMatrix(M, bwt) && 0 < i < |bwt|
    ensures forall q :: 0 <= q < |bwt| ==> ColumnFrom(TurnedPrefixes(M, i + 1))[q] == M[q][i]
  {
    var g := (s: string) => Take(s, i + 1);
    SortedKmers(M, bwt, i, g);
    var c, p := ColumnFrom(TurnedPrefixes(M, i + 1)), Map(g, M);
    assert c == Map(LastChar, p);
    forall q | 0 <= q < |bwt|
      ensures c[q] == M[q][i]
    {
      var row := M[q];
      assert p[q] == row[..i + 1];
      assert c[q] == LastChar(p[q]);
    }
  }

  /** Before the first round the state fits any matrix: the bwt characters are the rows' last characters. */
  lemma FirstFits(M: seq<string>, bwt: string, kmer: seq<string>, m: seq<string>, result: string)
    requires RotationMatrix(M, bwt) && 0 < |bwt| && |m| == |bwt|
    requires kmer == Singletons(bwt) && m[0] == FirstColumn(bwt)
    ensures Fits(M, 1, kmer, m, result)
  {
    var n := |bwt|;
    FirstColumnOfMatrix(M, bwt);
    var e := TurnedPrefixes(M, 1);
    forall r | 0 <= r < n
      ensures kmer[r] == e[r]
    {
      assert bwt[r] == M[r][n - 1];
    }
  }

  /** Round i carries the fit from i to i + 1. */
  lemma NextFits(M: seq<string>, bwt: string, i: nat, kmer: seq<string>, m: seq<string>, result: string)
    requires RotationMatrix(M, bwt) && 0 < i < |bwt| && |m| == |bwt| && |result| == |bwt|
    requires Fits(M, i, kmer, m, result)
    ensures |m[i - 1]| == |kmer|
    ensures var next := Extend(kmer, m[i - 1]); var column := ColumnFrom(next);
      Fits(M, i + 1, next, m[i := column], result[i - 1 := column[0]])
  {
    var n := |bwt|;
    var previous := m[i - 1];
    assert |previous| == n;
    forall q | 0 <= q < n
      ensures previous[q] == M[q][i - 1]
    {
    }
    KmersStep(M, bwt, i, kmer, previous);
    var next := Extend(kmer, previous);
    ColumnOfSorted(M, bwt, i);
    var column := ColumnFrom(next);
    var m', result' := m[i := column], result[i - 1 := column[0]];
    forall j, q | 0 <= j < i + 1 && 0 <= q < n
      ensures j < |M[q]| && j < |m'| && q < |m'[j]| && m'[j][q] == M[q][j]
    {
      if j < i {
        assert m'[j] == m[j];
      }
    }
    forall k | 0 <= k < i
      ensures k < |result'| && 0 < |M| && k + 1 < |M[0]| && result'[k] == M[0][k + 1]
    {
      if k < i - 1 {
        assert result'[k] == result[k];
      }
    }
  }

  /** After the last round `result[-1] = m[0][0]` completes the top row rotated left by one. */
  lemma LastFits(M: seq<string>, bwt: string, kmer: seq<string>, m: seq<string>, result: string)
    requires RotationMatrix(M, bwt) && 0 < |bwt| && |m| == |bwt| && |result| == |bwt|
    requires Fits(M, |bwt|, kmer, m, result)
    ensures 0 < |m[0]| && result[|bwt| - 1 := m[0][0]] == Rotation(M[0], 1)
  {
    var n := |bwt|;
    assert M[0][0] == m[0][0];
    var r, e := result[n - 1 := m[0][0]], Rotation(M[0], 1);
    forall k | 0 <= k < n
      ensures r[k] == e[k]
    {
    }
  }

  /** The top row of the matrix of a '$'-terminated text starts with the final '$'. */
  lemma TopRow(t: string)
    requires Terminated(t)
    ensures SortedMatrix(t)[0] == Rotation(t, |t| - 1)
  {
    var sa := NaiveSuffixArrayOf(t);
    SuffixArrayMatrix(t, sa);
    DollarFirst(t, sa);
  }

  /** So rotating the top row left by one gives the text back. */
  lemma TopRowTurned(t: string)
    requires Terminated(t)
    ensures Rotation(SortedMatrix(t)[0], 1) == t
  {
    TopRow(t);
    var top := Rotation(t, |t| - 1);
    forall k | 0 <= k < |t|
      ensures Rotation(top, 1)[k] == t[k]
    {
    }
  }
}
