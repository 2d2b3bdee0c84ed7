/**
 * Shared vocabulary of the string-indexing algorithms: Python's lexicographic
 * order on strings, occurrence counts, rotations, suffixes, occurrences of a
 * pattern and permutations of positions.
 */
module StringSpec {

  /** Python's `None` or a value. */
  datatype Option<T> = None | Some(value: T)

  /** Python's `a < b` on strings: code-point lexicographic order, a proper prefix being smaller. */
  predicate Less(a: string, b: string)
    decreases |a|
  {
    if |a| == 0 then |b| > 0
    else |b| > 0 && (a[0] < b[0] || (a[0] == b[0] && Less(a[1..], b[1..])))
  }

  /** Python's `a <= b` on strings. */
  predicate LessEq(a: string, b: string)
  {
    a == b || Less(a, b)
  }

  lemma {:induction false} LessIrreflexive(a: string)
    ensures !Less(a, a)
    decreases |a|
  {
    if |a| > 0 {
      LessIrreflexive(a[1..]);
    }
  }

  lemma {:induction false} LessTransitive(a: string, b: string, c: string)
    requires Less(a, b) && Less(b, c)
    ensures Less(a, c)
    decreases |a|
  {
    if |a| > 0 && a[0] == b[0] && b[0] == c[0] {
      LessTransitive(a[1..], b[1..], c[1..]);
    }
  }

  lemma {:induction false} LessTotal(a: string, b: string)
    ensures a == b || Less(a, b) || Less(b, a)
    decreases |a|
  {
    if |a| > 0 && |b| > 0 && a[0] == b[0] {
      LessTotal(a[1..], b[1..]);
      if a[1..] == b[1..] {
        assert a == [a[0]] + a[1..] && b == [b[0]] + b[1..];
      }
    }
  }

  lemma LessAsymmetric(a: string, b: string)
    requires Less(a, b)
    ensures !Less(b, a)
  {
    if Less(b, a) {
      LessTransitive(a, b, a);
      LessIrreflexive(a);
    }
  }

  lemma LessEqTransitive(a: string, b: string, c: string)
    requires LessEq(a, b) && LessEq(b, c)
    ensures LessEq(a, c)
  {
    if a != b && b != c {
      LessTransitive(a, b, c);
    }
  }

  /** Comparing two concatenations whose first parts have the same length compares the pairs of parts. */
  lemma {:induction false} LessConcat(a: string, b: string, c: string, d: string)
    requires |a| == |b|
    ensures Less(a + c, b + d) <==> Less(a, b) || (a == b && Less(c, d))
    decreases |a|
  {
    if |a| > 0 {
      assert (a + c)[0] == a[0] && (b + d)[0] == b[0];
      assert (a + c)[1..] == a[1..] + c && (b + d)[1..] == b[1..] + d;
      LessConcat(a[1..], b[1..], c, d);
      if a[0] == b[0] && a[1..] == b[1..] {
        assert a == [a[0]] + a[1..] && b == [b[0]] + b[1..];
      }
    } else {
      assert a + c == c && b + d == d;
    }
  }

  /** A first difference at index k decides the order. */
  lemma {:induction false} LessAtDifference(a: string, b: string, k: nat)
    requires k < |a| && k < |b| && a[..k] == b[..k] && a[k] < b[k]
    ensures Less(a, b)
    decreases k
  {
    if k > 0 {
      assert a[0] == a[..k][0] == b[..k][0] == b[0];
      assert a[1..][..k - 1] == a[..k][1..] == b[..k][1..] == b[1..][..k - 1];
      LessAtDifference(a[1..], b[1..], k - 1);
    }
  }

  /** A proper prefix is smaller. */
  lemma {:induction false} LessProperPrefix(a: string, b: string)
    requires |a| < |b| && b[..|a|] == a
    ensures Less(a, b)
    decreases |a|
  {
    if |a| > 0 {
      assert b[1..][..|a| - 1] == b[..|a|][1..];
      LessProperPrefix(a[1..], b[1..]);
    }
  }

  /** If a < b and neither is a prefix of the other, they already differ within the shorter one. */
  lemma {:induction false} LessImpliesDifference(a: string, b: string) returns (k: nat)
    requires Less(a, b)
    ensures k <= |a| && k <= |b| && a[..k] == b[..k]
    ensures (k == |a| && k < |b|) || (k < |a| && k < |b| && a[k] < b[k])
    decreases |a|
  {
    if |a| == 0 {
      k := 0;
    } else if a[0] < b[0] {
      k := 0;
    } else {
      var k' := LessImpliesDifference(a[1..], b[1..]);
      k := k' + 1;
      assert a[..k] == [a[0]] + a[1..][..k'];
      assert b[..k] == [b[0]] + b[1..][..k'];
    }
  }

  /** Number of occurrences of x in s. */
  function Count<T(==)>(x: T, s: seq<T>): nat
  {
    if |s| == 0 then 0 else Count(x, s[..|s| - 1]) + (if s[|s| - 1] == x then 1 else 0)
  }

  lemma {:induction false} CountAppend<T>(x: T, a: seq<T>, b: seq<T>)
    ensures Count(x, a + b) == Count(x, a) + Count(x, b)
    decreases |b|
  {
    if |b| == 0 {
      assert a + b == a;
    } else {
      assert (a + b)[..|a + b| - 1] == a + b[..|b| - 1];
      CountAppend(x, a, b[..|b| - 1]);
    }
  }

  /** Counting one more element of a prefix. */
  lemma CountPrefixStep<T>(x: T, s: seq<T>, i: nat)
    requires i < |s|
    ensures Count(x, s[..i + 1]) == Count(x, s[..i]) + (if s[i] == x then 1 else 0)
  {
    assert s[..i + 1][..i] == s[..i];
  }

  lemma {:induction false} CountBound<T>(x: T, s: seq<T>)
    ensures Count(x, s) <= |s|
    decreases |s|
  {
    if |s| > 0 {
      CountBound(x, s[..|s| - 1]);
    }
  }

  lemma {:induction false} CountMultiset<T>(x: T, s: seq<T>)
    ensures Count(x, s) == multiset(s)[x]
    decreases |s|
  {
    if |s| > 0 {
      CountMultiset(x, s[..|s| - 1]);
      assert s == s[..|s| - 1] + [s[|s| - 1]];
    }
  }

  /** A value that occurs has a positive count. */
  lemma {:induction false} CountPositive<T>(x: T, s: seq<T>, i: nat)
    requires i < |s| && s[i] == x
    ensures Count(x, s) > 0
  {
    CountMultiset(x, s);
    assert x in multiset(s);
  }

  /** No value occurs twice in s. */
  predicate Distinct<T(==)>(s: seq<T>)
  {
    forall a, b :: 0 <= a < b < |s| ==> s[a] != s[b]
  }

  lemma {:induction false} CountAbsent<T>(x: T, s: seq<T>)
    requires forall i :: 0 <= i < |s| ==> s[i] != x
    ensures Count(x, s) == 0
    decreases |s|
  {
    if |s| > 0 {
      CountAbsent(x, s[..|s| - 1]);
    }
  }

  lemma {:induction false} CountDistinct<T>(x: T, s: seq<T>)
    requires Distinct(s)
    ensures Count(x, s) <= 1
    decreases |s|
  {
    if |s| > 0 {
      var init := s[..|s| - 1];
      if s[|s| - 1] == x {
        CountAbsent(x, init);
      } else {
        CountDistinct(x, init);
      }
    }
  }

  lemma CountTwice<T>(x: T, s: seq<T>, i: nat, j: nat)
    requires i < j < |s| && s[i] == x && s[j] == x
    ensures Count(x, s) >= 2
  {
    assert s == s[..j] + s[j..];
    CountAppend(x, s[..j], s[j..]);
    CountPositive(x, s[..j], i);
    CountPositive(x, s[j..], 0);
  }

  /** A rearrangement of a sequence without repetitions has none either. */
  lemma DistinctRearrangement<T>(a: seq<T>, b: seq<T>)
    requires multiset(a) == multiset(b) && Distinct(b)
    ensures Distinct(a)
  {
    forall i, j | 0 <= i < j < |a|
      ensures a[i] != a[j]
    {
      if a[i] == a[j] {
        CountTwice(a[i], a, i, j);
        CountMultiset(a[i], a);
        CountMultiset(a[i], b);
        CountDistinct(a[i], b);
      }
    }
  }

  /** Cutting two equally long ordered strings at the same length keeps them ordered. */
  lemma LessEqPrefix(a: string, b: string, m: nat)
    requires |a| == |b| && m <= |a| && LessEq(a, b)
    ensures LessEq(a[..m], b[..m])
  {
    if a != b {
      var k := LessImpliesDifference(a, b);
      if k < m {
        assert a[..m][..k] == a[..k] && b[..m][..k] == b[..k];
        LessAtDifference(a[..m], b[..m], k);
      } else {
        assert a[..m] == a[..k][..m] && b[..m] == b[..k][..m];
      }
    }
  }

  /** Python's `text[i:]`. */
  function Suffix(t: string, i: nat): (r: string)
    requires i <= |t|
    ensures |r| == |t| - i && forall k :: 0 <= k < |r| ==> r[k] == t[i + k]
  {
    t[i..]
  }

  /** Python's `text[i:] + text[:i]`, the i-th cyclic rotation. */
  function Rotation(t: string, i: nat): (r: string)
    requires i <= |t|
    ensures |r| == |t|
    ensures forall k :: 0 <= k < |t| - i ==> r[k] == t[i + k]
    ensures forall k :: |t| - i <= k < |t| ==> r[k] == t[k - (|t| - i)]
  {
    t[i..] + t[..i]
  }

  lemma RotationMultiset(t: string, i: nat)
    requires i <= |t|
    ensures multiset(Rotation(t, i)) == multiset(t)
  {
    assert t == t[..i] + t[i..];
  }

  /** The pattern p occurs in t starting at position i. */
  predicate OccursAt(p: string, t: string, i: int)
  {
    0 <= i && i + |p| <= |t| && t[i..i + |p|] == p
  }

  /** s lists each of 0, ..., n-1 exactly once. */
  predicate IsPermutation(s: seq<int>, n: nat)
  {
    |s| == n
    && (forall i :: 0 <= i < n ==> 0 <= s[i] < n)
    && (forall i, j :: 0 <= i < j < n ==> s[i] != s[j])
  }

  /** order lists every position of t once, by non-decreasing cyclic rotation. */
  ghost predicate RotationsSorted(t: string, order: seq<int>)
  {
    IsPermutation(order, |t|)
    && forall a, b :: 0 <= a < b < |t| ==> LessEq(Rotation(t, order[a]), Rotation(t, order[b]))
  }

  /** The suffix array of t: every position once, by strictly increasing suffix. */
  ghost predicate IsSuffixArray(t: string, sa: seq<int>)
  {
    IsPermutation(sa, |t|)
    && forall a, b :: 0 <= a < b < |t| ==> Less(Suffix(t, sa[a]), Suffix(t, sa[b]))
  }

  lemma FirstDifference(x: seq<int>, y: seq<int>) returns (a: nat)
    requires |x| == |y| && x != y
    ensures a < |x| && x[a] != y[a] && x[..a] == y[..a]
  {
    a := 0;
    while a < |x| && x[a] == y[a]
      invariant a <= |x| && x[..a] == y[..a]
      decreases |x| - a
    {
      assert x[..a + 1] == x[..a] + [x[a]] && y[..a + 1] == y[..a] + [y[a]];
      a := a + 1;
    }
  }

  /** A text has one suffix array. */
  lemma SuffixArrayUnique(t: string, s1: seq<int>, s2: seq<int>)
    requires IsSuffixArray(t, s1) && IsSuffixArray(t, s2)
    ensures s1 == s2
  {
    var n := |t|;
    if s1 != s2 {
      var a := FirstDifference(s1, s2);
      var p, q := s1[a], s2[a];
      var b := PermutationCovers(s2, n, p);
      var c := PermutationCovers(s1, n, q);
      assert a < b && a < c;
      assert Less(Suffix(t, p), Suffix(t, q)) && Less(Suffix(t, q), Suffix(t, p));
      LessAsymmetric(Suffix(t, p), Suffix(t, q));
    }
  }

  /** Non-decreasing sequence of characters. */
  predicate SortedChars(s: string)
  {
    forall i, j :: 0 <= i < j < |s| ==> s[i] <= s[j]
  }

  /** Non-decreasing sequence of strings. */
  predicate SortedStrings(s: seq<string>)
  {
    forall i, j :: 0 <= i < j < |s| ==> LessEq(s[i], s[j])
  }

  lemma {:induction false} DistinctImageCard(s: seq<int>)
    requires forall i, j :: 0 <= i < j < |s| ==> s[i] != s[j]
    ensures |set i | 0 <= i < |s| :: s[i]| == |s|
    decreases |s|
  {
    if |s| > 0 {
      var s' := s[..|s| - 1];
      DistinctImageCard(s');
      assert (set i | 0 <= i < |s| :: s[i]) == (set i | 0 <= i < |s'| :: s'[i]) + {s[|s| - 1]};
    }
  }

  lemma SubsetSameCard<T>(a: set<T>, b: set<T>)
    requires a <= b && |a| == |b|
    ensures a == b
  {
    assert b == a + (b - a);
  }

  /** Pigeonhole: a permutation of length n takes every value below n. */
  lemma PermutationCovers(s: seq<int>, n: nat, v: int) returns (i: nat)
    requires IsPermutation(s, n) && 0 <= v < n
    ensures i < n && s[i] == v
  {
    var ids := seq(n, k => k);
    var image := set i | 0 <= i < n :: s[i];
    var range := set k | 0 <= k < n :: ids[k];
    DistinctImageCard(s);
    DistinctImageCard(ids);
    assert forall i | 0 <= i < n :: s[i] == ids[s[i]];
    SubsetSameCard(image, range);
    assert ids[v] in range;
    i :| 0 <= i < n && s[i] == v;
  }

  lemma DropLastMultiset<T>(a: seq<T>, b: seq<T>)
    requires |a| > 0 && |b| > 0 && multiset(a) == multiset(b) && a[|a| - 1] == b[|b| - 1]
    ensures multiset(a[..|a| - 1]) == multiset(b[..|b| - 1])
  {
    var x := a[|a| - 1];
    assert a == a[..|a| - 1] + [x];
    assert b == b[..|b| - 1] + [x];
    var ma, mb := multiset(a[..|a| - 1]), multiset(b[..|b| - 1]);
    assert multiset(a) == ma + multiset{x};
    assert multiset(b) == mb + multiset{x};
    forall z
      ensures ma[z] == mb[z]
    {
      assert multiset(a)[z] == ma[z] + multiset{x}[z];
      assert multiset(b)[z] == mb[z] + multiset{x}[z];
    }
  }

  /** Two sorted rearrangements of the same strings are equal. */
  lemma {:induction false} SortedStringsUnique(a: seq<string>, b: seq<string>)
    requires SortedStrings(a) && SortedStrings(b) && multiset(a) == multiset(b)
    ensures a == b
    decreases |a|
  {
    assert |b| == |multiset(b)| == |multiset(a)| == |a|;
    if |a| > 0 {
      var x, y := a[|a| - 1], b[|b| - 1];
      assert a == a[..|a| - 1] + [x];
      assert b == b[..|b| - 1] + [y];
      assert x in multiset(b) && y in multiset(a);
      var i :| 0 <= i < |b| && b[i] == x;
      var j :| 0 <= j < |a| && a[j] == y;
      assert LessEq(x, y) && LessEq(y, x);
      if x != y {
        LessAsymmetric(x, y);
      }
      DropLastMultiset(a, b);
      SortedStringsUnique(a[..|a| - 1], b[..|b| - 1]);
    }
  }

  lemma SortedCharsPrefix(a: string)
    requires |a| > 0 && SortedChars(a)
    ensures SortedChars(a[..|a| - 1])
  {
    var a' := a[..|a| - 1];
    forall p, q | 0 <= p < q < |a'|
      ensures a'[p] <= a'[q]
    {
      assert a'[p] == a[p] && a'[q] == a[q];
    }
  }

  /** Two sorted rearrangements of the same characters are equal. */
  lemma {:induction false} SortedCharsUnique(a: string, b: string)
    requires SortedChars(a) && SortedChars(b) && multiset(a) == multiset(b)
    ensures a == b
    decreases |a|
  {
    assert |b| == |multiset(b)| == |multiset(a)| == |a|;
    if |a| > 0 {
      var x, y := a[|a| - 1], b[|b| - 1];
      assert a == a[..|a| - 1] + [x];
      assert b == b[..|b| - 1] + [y];
      assert x in multiset(b) && y in multiset(a);
      var i :| 0 <= i < |b| && b[i] == x;
      var j :| 0 <= j < |a| && a[j] == y;
      assert x <= y by { assert i == |b| - 1 || b[i] <= b[|b| - 1]; }
      assert y <= x by { assert j == |a| - 1 || a[j] <= a[|a| - 1]; }
      DropLastMultiset(a, b);
      SortedCharsPrefix(a);
      SortedCharsPrefix(b);
      SortedCharsUnique(a[..|a| - 1], b[..|b| - 1]);
    }
  }
}
