/**
 * The Burrows-Wheeler transform: the reference construction (all cyclic
 * rotations, sorted, last column) and the construction from a suffix array
 * (the character before each sorted suffix).
 */
module BurrowsWheeler {
  import opened StringSpec
  import opened Sorting
  import opened CountingSort
  import opened SuffixArray

  lemma StringOrder()
    ensures TotalPreorder(LessEq)
  {
    forall a: string, b: string
      ensures LessEq(a, b) || LessEq(b, a)
    {
      LessTotal(a, b);
    }
    forall a: string, b: string, c: string | LessEq(a, b) && LessEq(b, c)
      ensures LessEq(a, c)
    {
      LessEqTransitive(a, b, c);
    }
  }

  /** All cyclic rotations of t, by start. */
  function Rotations(t: string): (r: seq<string>)
    ensures |r| == |t| && forall i :: 0 <= i < |t| ==> r[i] == Rotation(t, i) && |r[i]| == |t|
  {
    seq(|t|, i requires 0 <= i < |t| => Rotation(t, i))
  }

  /** `sorted_rotations`: the list sorted in place, returned. */
  function SortRotations(cyclic: seq<string>): (r: seq<string>)
    ensures SortedStrings(r) && multiset(r) == multiset(cyclic)
  {
    StringOrder();
    Sort(cyclic, LessEq)
  }

  /** The last character of a row; rows are never empty where it is used. */
  function LastChar(row: string): char
  {
    if |row| == 0 then '$' else row[|row| - 1]
  }

  /** The matrix of sorted rotations of t. */
  function SortedMatrix(t: string): (m: seq<string>)
    ensures |m| == |t| && SortedStrings(m) && multiset(m) == multiset(Rotations(t))
    ensures forall k :: 0 <= k < |t| ==> |m[k]| == |t|
  {
    var m := SortRotations(Rotations(t));
    SameLengths(m, Rotations(t), |t|);
    m
  }

  /** A rearrangement of rows that all have length n has as many rows, all of length n. */
  lemma SameLengths(m: seq<string>, r: seq<string>, n: nat)
    requires multiset(m) == multiset(r) && forall i :: 0 <= i < |r| ==> |r[i]| == n
    ensures |m| == |r| && forall k :: 0 <= k < |m| ==> |m[k]| == n
  {
    assert |m| == |multiset(m)| == |multiset(r)| == |r|;
    forall k | 0 <= k < |m|
      ensures |m[k]| == n
    {
      assert m[k] in multiset(r);
      assert m[k] in r;
    }
  }

  /** `bwt(text)`: the last column of the sorted rotation matrix. */
  function BwtOf(t: string): (r: string)
    ensures |r| == |t|
  {
    Map(LastChar, SortedMatrix(t))
  }

  /** The last column of the rotations in start order is the text rotated right by one. */
  lemma LastColumnOfRotations(t: string)
    requires |t| > 0
    ensures Map(LastChar, Rotations(t)) == Rotation(t, |t| - 1)
  {
  }

  /** The transform is a rearrangement of the text. */
  lemma BwtCounts(t: string)
    ensures multiset(BwtOf(t)) == multiset(t)
  {
    if |t| > 0 {
      MapRearrangement(LastChar, SortedMatrix(t), Rotations(t));
      LastColumnOfRotations(t);
      RotationMultiset(t, |t| - 1);
    }
  }

  /** `cyclic_rotations`: append `text[i:] + text[:i]` for every i. */
  method CyclicRotations(text: string) returns (cyclic: seq<string>)
    ensures cyclic == Rotations(text)
  {
    cyclic := [];
    for i := 0 to |text|
      invariant |cyclic| == i && forall k :: 0 <= k < i ==> cyclic[k] == Rotation(text, k)
    {
      var rotation := text[i..] + text[..i];
      cyclic := cyclic + [rotation];
    }
  }

  /** `extract_last_column`: `row[-1]` of every row (an empty row would raise IndexError). */
  method ExtractLastColumn(matrix: seq<string>) returns (last: string)
    requires forall i :: 0 <= i < |matrix| ==> |matrix[i]| > 0
    ensures |last| == |matrix| && forall i :: 0 <= i < |matrix| ==> last[i] == matrix[i][|matrix[i]| - 1]
  {
    last := [];
    for i := 0 to |matrix|
      invariant |last| == i && forall k :: 0 <= k < i ==> last[k] == matrix[k][|matrix[k]| - 1]
    {
      last := last + [matrix[i][|matrix[i]| - 1]];
    }
  }

  /** `bwt`: rotations, sorted, last column. */
  method Bwt(text: string) returns (lastColumn: string)
    ensures lastColumn == BwtOf(text)
    ensures multiset(lastColumn) == multiset(text)
  {
    var cyclic := CyclicRotations(text);
    var sorted := SortRotations(cyclic);
    assert sorted == SortedMatrix(text);
    lastColumn := ExtractLastColumn(sorted);
    BwtCounts(text);
  }

  /** `bwt_from_suffix_array`: `text[pos - 1]` for every entry, position 0 reading the last character. */
  function BwtFromSuffixArray(text: string, sa: seq<int>): (r: string)
    requires forall i :: 0 <= i < |sa| ==> 0 <= sa[i] < |text|
    ensures |r| == |sa|
    ensures forall i :: 0 <= i < |sa| ==> r[i] == LastChar(Rotation(text, sa[i]))
  {
    seq(|sa|, i requires 0 <= i < |sa| => if sa[i] == 0 then text[|text| - 1] else text[sa[i] - 1])
  }

  /** The transform reads the last column of the rotations listed in suffix-array order. */
  lemma SuffixArrayLastColumn(text: string, sa: seq<int>)
    requires forall i :: 0 <= i < |sa| ==> 0 <= sa[i] < |text|
    ensures BwtFromSuffixArray(text, sa) == Map(LastChar, Permuted(Rotations(text), sa))
  {
    var r, m := BwtFromSuffixArray(text, sa), Map(LastChar, Permuted(Rotations(text), sa));
    forall i | 0 <= i < |sa|
      ensures r[i] == m[i]
    {
      assert Permuted(Rotations(text), sa)[i] == Rotation(text, sa[i]);
    }
  }

  /** Built from a permutation of the positions, the transform rearranges the text. */
  lemma BwtFromSuffixArrayCounts(text: string, sa: seq<int>)
    requires IsPermutation(sa, |text|)
    ensures multiset(BwtFromSuffixArray(text, sa)) == multiset(text)
  {
    if |text| > 0 {
      var rots := Permuted(Rotations(text), sa);
      PermutedMultiset(Rotations(text), sa);
      MapRearrangement(LastChar, rots, Rotations(text));
      SuffixArrayLastColumn(text, sa);
      LastColumnOfRotations(text);
      RotationMultiset(text, |text| - 1);
    }
  }

  /** For a '$'-terminated text the rotations listed in suffix-array order are the sorted matrix. */
  lemma SuffixArrayMatrix(text: string, sa: seq<int>)
    requires Terminated(text) && IsSuffixArray(text, sa)
    ensures Permuted(Rotations(text), sa) == SortedMatrix(text)
  {
    var rots := Permuted(Rotations(text), sa);
    forall a, b | 0 <= a < b < |rots|
      ensures LessEq(rots[a], rots[b])
    {
      RotationVsSuffix(text, sa[a], sa[b]);
    }
    PermutedMultiset(Rotations(text), sa);
    SortedStringsUnique(rots, SortedMatrix(text));
  }

  /** For a '$'-terminated text the suffix array gives the reference transform. */
  lemma BwtFromSuffixArrayIsBwt(text: string, sa: seq<int>)
    requires Terminated(text) && IsSuffixArray(text, sa)
    ensures BwtFromSuffixArray(text, sa) == BwtOf(text)
  {
    SuffixArrayMatrix(text, sa);
    SuffixArrayLastColumn(text, sa);
  }
}
