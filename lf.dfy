/**
 * The Last-to-First property of the Burrows-Wheeler transform and the walk
 * that inverts it.  The k-th occurrence of a character in the last column is
 * the k-th occurrence of that character in the first column (the sorted
 * transform), so the row of the first column holding it is the number of
 * smaller characters plus the number of earlier equal ones.
 */
module LastToFirst {
  import opened StringSpec
  import opened Sorting
  import opened CountingSort
  import opened NaiveSuffixArray
  import opened SuffixArray
  import opened BurrowsWheeler

  /** Number of characters of s smaller than c. */
  function Smaller(s: string, c: char): nat
  {
    CountBelow(c as int, Codes(s))
  }

  /** Occurrences of s[r] strictly above row r. */
  function Rank(s: string, r: int): nat
    requires 0 <= r < |s|
  {
    Count(s[r], s[..r])
  }

  lemma SmallerRankIsDest(bwt: string, r: nat)
    requires r < |bwt|
    ensures Smaller(bwt, bwt[r]) + Rank(bwt, r) == Dest(Codes(bwt), r)
  {
    CodesPrefix(bwt, r);
    CountCodes(bwt[r], bwt[..r]);
  }

  /** The Last-to-First mapping: the row of the first column holding the occurrence at row r of the last. */
  function LF(bwt: string, r: int): (q: int)
    requires 0 <= r < |bwt|
    ensures 0 <= q < |bwt| && q == Dest(Codes(bwt), r)
  {
    SmallerRankIsDest(bwt, r);
    Smaller(bwt, bwt[r]) + Rank(bwt, r)
  }

  /** LF is a permutation of the rows. */
  lemma LFPermutation(bwt: string)
    ensures IsPermutation(seq(|bwt|, r requires 0 <= r < |bwt| => LF(bwt, r)), |bwt|)
  {
    DestPermutation(Codes(bwt));
  }

  lemma LFOnto(bwt: string, q: int) returns (r: nat)
    requires 0 <= q < |bwt|
    ensures r < |bwt| && LF(bwt, r) == q
  {
    r := DestOnto(Codes(bwt), q);
  }

  /** Python's `<=` on characters. */
  predicate CharLe(a: char, b: char)
  {
    a <= b
  }

  lemma CharOrder()
    ensures TotalPreorder(CharLe)
  {
  }

  /** `sorted(bwt)`: the first column of the rotation matrix. */
  function FirstColumn(bwt: string): (f: string)
    ensures SortedChars(f) && multiset(f) == multiset(bwt)
  {
    CharOrder();
    Sort(bwt, CharLe)
  }

  /** The copies of s[r] above row r are fewer than all its copies. */
  lemma RankBelowCount(s: string, r: nat)
    requires r < |s|
    ensures Rank(s, r) < Count(s[r], s)
  {
    CountPrefixStep(s[r], s, r);
    CountPrefixMono(s[r], s, r + 1, |s|);
    assert s[..|s|] == s;
  }

  /** In a sorted string the characters below f[q] all come before position q. */
  lemma SortedSmaller(f: string, q: nat)
    requires SortedChars(f) && q < |f|
    ensures Smaller(f, f[q]) == Smaller(f[..q], f[q])
  {
    var x := f[q] as int;
    var pre, post := Codes(f[..q]), Codes(f[q..]);
    CodesSplit(f, q);
    forall k | 0 <= k < |post|
      ensures x <= post[k]
    {
      assert post[k] == f[q + k] as int;
    }
    CountBelowAppend(x, pre, post);
    CountBelowNone(x, post);
  }

  lemma CodesSplit(f: string, q: nat)
    requires q <= |f|
    ensures Codes(f) == Codes(f[..q]) + Codes(f[q..])
  {
    var pre, post := Codes(f[..q]), Codes(f[q..]);
    forall k | 0 <= k < |f|
      ensures Codes(f)[k] == (pre + post)[k]
    {
      if k < q {
        assert f[..q][k] == f[k];
      } else {
        assert f[q..][k - q] == f[k];
      }
    }
  }

  /** When no character of s exceeds c, s splits into the characters below c and the copies of c. */
  lemma SmallerOrEqual(s: string, c: char)
    requires forall k :: 0 <= k < |s| ==> s[k] <= c
    ensures Smaller(s, c) + Count(c, s) == |s|
  {
    var codes := Codes(s);
    assert forall k :: 0 <= k < |codes| ==> codes[k] < c as int + 1 by {
      forall k | 0 <= k < |codes|
        ensures codes[k] < c as int + 1
      {
        assert codes[k] == s[k] as int;
      }
    }
    CountBelowNext(c as int, codes);
    CountBelowAll(c as int + 1, codes);
    CountCodes(c, s);
  }

  /** In a sorted string, position q is preceded by the smaller characters and the earlier copies of f[q]. */
  lemma SortedRank(f: string, q: nat)
    requires SortedChars(f) && q < |f|
    ensures Smaller(f, f[q]) + Count(f[q], f[..q]) == q
    ensures q < Smaller(f, f[q]) + Count(f[q], f)
  {
    SortedSmaller(f, q);
    SmallerOrEqual(f[..q], f[q]);
    RankBelowCount(f, q);
  }

  /** Row r's character occupies, in the first column, the block after the smaller characters. */
  lemma InBlock(bwt: string, r: nat)
    requires r < |bwt|
    ensures Smaller(bwt, bwt[r]) <= LF(bwt, r) < Smaller(bwt, bwt[r]) + Count(bwt[r], bwt)
  {
    RankBelowCount(bwt, r);
  }

  function Code(c: char): int
  {
    c as int
  }

  lemma {:induction false} CountBelowRearranged(x: int, a: seq<int>, b: seq<int>)
    requires multiset(a) == multiset(b)
    ensures CountBelow(x, a) == CountBelow(x, b)
    decreases |a|
  {
    if |a| == 0 {
      assert |b| == |multiset(b)| == 0;
    } else {
      var y := a[|a| - 1];
      var a' := a[..|a| - 1];
      assert a == a' + [y];
      assert y in multiset(b);
      var j :| 0 <= j < |b| && b[j] == y;
      var b' := b[..j] + b[j + 1..];
      RemoveAt(b, j);
      Cancel(multiset(a'), multiset(b'), y);
      CountBelowRearranged(x, a', b');
      CountBelowAppend(x, a', [y]);
      assert b == (b[..j] + [y]) + b[j + 1..];
      CountBelowAppend(x, b[..j] + [y], b[j + 1..]);
      CountBelowAppend(x, b[..j], [y]);
      CountBelowAppend(x, b[..j], b[j + 1..]);
    }
  }

  /** Rearranging a string keeps the number of characters below any c. */
  lemma SmallerRearranged(a: string, b: string, c: char)
    requires multiset(a) == multiset(b)
    ensures Smaller(a, c) == Smaller(b, c)
  {
    assert Codes(a) == Map(Code, a);
    assert Codes(b) == Map(Code, b);
    MapRearrangement(Code, a, b);
    CountBelowRearranged(c as int, Codes(a), Codes(b));
  }

  /** The occurrence at row r of the last column sits at row LF(r) of the first, with the same rank. */
  lemma FirstColumnAtLF(bwt: string, r: nat)
    requires r < |bwt|
    ensures FirstColumn(bwt)[LF(bwt, r)] == bwt[r]
    ensures Count(bwt[r], FirstColumn(bwt)[..LF(bwt, r)]) == Rank(bwt, r)
  {
    var f := FirstColumn(bwt);
    var q, c := LF(bwt, r), bwt[r];
    var d := f[q];
    SortedRank(f, q);
    SmallerRearranged(f, bwt, d);
    SmallerRearranged(f, bwt, c);
    CountMultiset(d, f);
    CountMultiset(d, bwt);
    InBlock(bwt, r);
    CountCodes(d, bwt);
    CountCodes(c, bwt);
    if d < c {
      CountBelowMono(d as int, c as int, Codes(bwt));
    } else if c < d {
      CountBelowMono(c as int, d as int, Codes(bwt));
    }
  }

  /** The row reached from row 0 after i steps of the Last-to-First mapping. */
  function Walk(bwt: string, i: nat): (r: int)
    requires |bwt| > 0
    ensures 0 <= r < |bwt|
  {
    if i == 0 then 0 else LF(bwt, Walk(bwt, i - 1))
  }

  /**
   * The text the walk spells: its last character is the first of the sorted
   * column, and each step back reads the first-column character of the next row.
   */
  function InverseOf(bwt: string): (t: string)
    requires |bwt| > 0
    ensures |t| == |bwt|
  {
    seq(|bwt|, k requires 0 <= k < |bwt| => FirstColumn(bwt)[Walk(bwt, |bwt| - 1 - k)])
  }

  /** Read off the last column instead: every character but the final one is bwt at a row of the walk. */
  lemma InverseFromLastColumn(bwt: string, k: nat)
    requires k < |bwt| - 1
    ensures InverseOf(bwt)[k] == bwt[Walk(bwt, |bwt| - 2 - k)]
  {
    var i := |bwt| - 2 - k;
    InverseFromBack(bwt, i + 1);
    WalkNext(bwt, i);
    FirstColumnAtLF(bwt, Walk(bwt, i));
  }

  lemma WalkNext(bwt: string, i: nat)
    requires |bwt| > 0
    ensures Walk(bwt, i + 1) == LF(bwt, Walk(bwt, i))
  {
  }

  /** Counted from the back, the i-th character of the inverse is the sorted character at row Walk(i). */
  lemma InverseFromBack(bwt: string, i: nat)
    requires i < |bwt|
    ensures InverseOf(bwt)[|bwt| - 1 - i] == FirstColumn(bwt)[Walk(bwt, i)]
  {
    var k := |bwt| - 1 - i;
    assert |bwt| - 1 - k == i;
  }

  lemma InverseEnd(bwt: string)
    requires |bwt| > 0
    ensures InverseOf(bwt)[|bwt| - 1] == FirstColumn(bwt)[0]
  {
    assert InverseOf(bwt)[|bwt| - 1] == FirstColumn(bwt)[Walk(bwt, 0)];
  }

  /** The position before p in cyclic order. */
  function Pred(p: int, n: int): int
  {
    if p == 0 then n - 1 else p - 1
  }

  lemma CoverExists(sa: seq<int>, p: int)
    requires IsPermutation(sa, |sa|) && 0 <= p < |sa|
    ensures exists i :: 0 <= i < |sa| && sa[i] == p
  {
    var i := PermutationCovers(sa, |sa|, p);
  }

  /** The row of the suffix array holding start p. */
  ghost function RowOf(sa: seq<int>, p: int): (i: int)
    requires IsPermutation(sa, |sa|) && 0 <= p < |sa|
    ensures 0 <= i < |sa| && sa[i] == p
  {
    CoverExists(sa, p);
    var i :| 0 <= i < |sa| && sa[i] == p; i
  }

  /** Rows of a suffix array are in suffix order, and only in that order. */
  lemma SuffixArrayOrder(t: string, sa: seq<int>, i: nat, j: nat)
    requires IsSuffixArray(t, sa) && i < |t| && j < |t|
    ensures i < j <==> Less(Suffix(t, sa[i]), Suffix(t, sa[j]))
  {
    if j < i {
      LessAsymmetric(Suffix(t, sa[j]), Suffix(t, sa[i]));
    } else if i == j {
      LessIrreflexive(Suffix(t, sa[i]));
    }
  }

  /** The transform of a '$'-terminated text reads, at row r, the character before the r-th smallest suffix. */
  lemma TerminatedLastColumn(t: string, sa: seq<int>, r: nat)
    requires Terminated(t) && IsSuffixArray(t, sa) && r < |t|
    ensures BwtOf(t)[r] == t[Pred(sa[r], |t|)]
  {
    BwtFromSuffixArrayIsBwt(t, sa);
  }

  /** Only the suffix starting at 0 is preceded by the '$'. */
  lemma DollarBeforeFirst(t: string, p: nat)
    requires Terminated(t) && p < |t|
    ensures t[Pred(p, |t|)] == '$' <==> p == 0
  {
  }

  /** The rows of the preceding suffixes are increasing in the stable order of the last column. */
  lemma PredRowsMonotone(t: string, sa: seq<int>, a: nat, b: nat)
    requires Terminated(t) && IsSuffixArray(t, sa) && a < |t| && b < |t|
    requires Before(Codes(BwtOf(t)), a, b)
    ensures RowOf(sa, Pred(sa[a], |t|)) < RowOf(sa, Pred(sa[b], |t|))
  {
    var n := |t|;
    var pa, pb := Pred(sa[a], n), Pred(sa[b], n);
    TerminatedLastColumn(t, sa, a);
    TerminatedLastColumn(t, sa, b);
    assert t[pa] < t[pb] || (t[pa] == t[pb] && a < b) by {
      var codes := Codes(BwtOf(t));
      assert codes[a] == t[pa] as int && codes[b] == t[pb] as int;
    }
    var sufA, sufB := Suffix(t, pa), Suffix(t, pb);
    if t[pa] < t[pb] {
      LessAtDifference(sufA, sufB, 0);
    } else {
      DollarBeforeFirst(t, sa[a]);
      DollarBeforeFirst(t, sa[b]);
      assert sa[a] != 0 && sa[b] != 0;
      assert sufA == [t[pa]] + Suffix(t, sa[a]);
      assert sufB == [t[pb]] + Suffix(t, sa[b]);
      SuffixArrayOrder(t, sa, a, b);
      LessConcat([t[pa]], [t[pb]], Suffix(t, sa[a]), Suffix(t, sa[b]));
    }
    SuffixArrayOrder(t, sa, RowOf(sa, pa), RowOf(sa, pb));
  }

  /** The Last-to-First property: row LF(r) holds the suffix one position before that of row r. */
  lemma LFOnSuffixArray(t: string, sa: seq<int>, r: nat)
    requires Terminated(t) && IsSuffixArray(t, sa) && r < |t|
    ensures sa[LF(BwtOf(t), r)] == Pred(sa[r], |t|)
  {
    var n := |t|;
    var L := BwtOf(t);
    var g := seq(n, k requires 0 <= k < n => RowOf(sa, Pred(sa[k], n)));
    forall a, b | 0 <= a < b < n
      ensures g[a] != g[b]
    {
      assert sa[g[a]] == Pred(sa[a], n) && sa[g[b]] == Pred(sa[b], n);
    }
    forall a, b | 0 <= a < n && 0 <= b < n && Before(Codes(L), a, b)
      ensures g[a] < g[b]
    {
      PredRowsMonotone(t, sa, a, b);
    }
    MonotoneIsDest(Codes(L), g, r);
  }

  /** Row q of the sorted column holds the first character of the q-th smallest suffix. */
  lemma FirstColumnOfTerminated(t: string, sa: seq<int>, q: nat)
    requires Terminated(t) && IsSuffixArray(t, sa) && q < |t|
    ensures FirstColumn(BwtOf(t))[q] == t[sa[q]]
  {
    var r := LFOnto(BwtOf(t), q);
    FirstColumnAtLF(BwtOf(t), r);
    LFOnSuffixArray(t, sa, r);
    TerminatedLastColumn(t, sa, r);
  }

  /** If LF moves every row to the preceding start and row 0 starts last, the walk counts the starts down. */
  lemma {:induction false} WalkCountsDown(L: string, sa: seq<int>, i: nat)
    requires 0 < |L| == |sa| && i < |L| && sa[0] == |L| - 1
    requires forall r :: 0 <= r < |L| ==> sa[LF(L, r)] == Pred(sa[r], |L|)
    ensures sa[Walk(L, i)] == |L| - 1 - i
  {
    if i > 0 {
      WalkCountsDown(L, sa, i - 1);
      assert Walk(L, i) == LF(L, Walk(L, i - 1));
    }
  }

  /** Under the same hypotheses, with row q of the sorted column reading t at sa[q], the walk spells t. */
  lemma WalkSpells(L: string, sa: seq<int>, t: string)
    requires 0 < |L| == |sa| == |t| && sa[0] == |L| - 1
    requires forall r :: 0 <= r < |L| ==> sa[LF(L, r)] == Pred(sa[r], |L|)
    requires forall q :: 0 <= q < |L| ==> 0 <= sa[q] < |t| && FirstColumn(L)[q] == t[sa[q]]
    ensures InverseOf(L) == t
  {
    var n := |L|;
    forall k | 0 <= k < n
      ensures InverseOf(L)[k] == t[k]
    {
      WalkCountsDown(L, sa, n - 1 - k);
    }
  }

  /** Inverting the transform of a '$'-terminated text gives the text back. */
  lemma InverseRoundTrip(t: string)
    requires Terminated(t)
    ensures InverseOf(BwtOf(t)) == t
  {
    var sa, L := NaiveSuffixArrayOf(t), BwtOf(t);
    DollarFirst(t, sa);
    forall r | 0 <= r < |L|
      ensures sa[LF(L, r)] == Pred(sa[r], |L|)
    {
      LFOnSuffixArray(t, sa, r);
    }
    forall q | 0 <= q < |L|
      ensures 0 <= sa[q] < |t| && FirstColumn(L)[q] == t[sa[q]]
    {
      FirstColumnOfTerminated(t, sa, q);
    }
    WalkSpells(L, sa, t);
  }
}
