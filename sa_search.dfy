/**
 * suffix_array_matching: every pattern is found by two binary searches over
 * the suffix array, comparing the pattern with the suffix at each row cut to
 * the pattern's length.  The array is built over `text + '$'` although the
 * text already ends in '$', and its first entry is dropped, so it has one
 * entry per character of the text; the entry the search sees at row 0 is
 * the position just past the text, whose cut suffix is empty.
 */
module SuffixArraySearch {
  import opened StringSpec
  import opened CharacterSort
  import opened SuffixArray
  import opened BackwardSearch
  import opened OccurrenceTables
  import opened BackwardCount
  import opened LocateWithBwt

  /** `text[pos:min(pos + m, len(text))]`: the suffix at pos cut to m characters. */
  function Window(text: string, pos: int, m: nat): string
    requires 0 <= pos <= |text|
  {
    text[pos..Min(pos + m, |text|)]
  }

  /** One entry per row of the search, each a position of text or just past it. */
  predicate ValidRows(text: string, sa: seq<int>)
  {
    |sa| == |text| && forall k :: 0 <= k < |sa| ==> 0 <= sa[k] <= |text|
  }

  /** The cut suffixes along the rows. */
  function Windows(text: string, sa: seq<int>, m: nat): (ws: seq<string>)
    requires ValidRows(text, sa)
    ensures |ws| == |sa| && forall k :: 0 <= k < |sa| ==> ws[k] == Window(text, sa[k], m)
  {
    seq(|sa|, k requires 0 <= k < |sa| => Window(text, sa[k], m))
  }

  /** The rows whose cut suffix is the pattern. */
  function MatchRows(text: string, sa: seq<int>, pattern: string): set<int>
    requires ValidRows(text, sa)
  {
    set k | 0 <= k < |sa| && Window(text, sa[k], |pattern|) == pattern
  }

  /** The rows of a returned `(start, end)`, both ends included. */
  function RangeRows(r: Option<(int, int)>): set<int>
  {
    match r
    case None => {}
    case Some((start, end)) => Rows(start, end)
  }

  lemma LessEqLess(a: string, b: string, c: string)
    requires LessEq(a, b) && Less(b, c)
    ensures Less(a, c)
  {
    if a != b {
      LessTransitive(a, b, c);
    }
  }

  lemma LessLessEq(a: string, b: string, c: string)
    requires Less(a, b) && LessEq(b, c)
    ensures Less(a, c)
  {
    if b != c {
      LessTransitive(a, b, c);
    }
  }

  /** `not b < a` and `b <= c` give `not c < a`. */
  lemma NotBelowChain(a: string, b: string, c: string)
    requires LessEq(b, c) && !Less(b, a)
    ensures !Less(c, a)
  {
    if Less(c, a) {
      LessEqLess(b, c, a);
    }
  }

  /** `not a < c` and `b <= c` give `not a < b`. */
  lemma NotAboveChain(a: string, b: string, c: string)
    requires LessEq(b, c) && !Less(a, c)
    ensures !Less(a, b)
  {
    if Less(a, b) {
      LessLessEq(a, b, c);
    }
  }

  /** In sorted keys, a key below the pattern has only such keys before it. */
  lemma BelowBefore(ws: seq<string>, pattern: string, mid: int)
    requires SortedStrings(ws) && 0 <= mid < |ws| && Less(ws[mid], pattern)
    ensures forall k :: 0 <= k <= mid ==> Less(ws[k], pattern)
  {
    forall k | 0 <= k < mid
      ensures Less(ws[k], pattern)
    {
      LessEqLess(ws[k], ws[mid], pattern);
    }
  }

  /** In sorted keys, a key not below the pattern has only such keys after it. */
  lemma NotBelowAfter(ws: seq<string>, pattern: string, mid: int)
    requires SortedStrings(ws) && 0 <= mid < |ws| && !Less(ws[mid], pattern)
    ensures forall k :: mid <= k < |ws| ==> !Less(ws[k], pattern)
  {
    forall k | mid < k < |ws|
      ensures !Less(ws[k], pattern)
    {
      NotBelowChain(pattern, ws[mid], ws[k]);
    }
  }

  /** In sorted keys, a key above the pattern has only such keys after it. */
  lemma AboveAfter(ws: seq<string>, pattern: string, mid: int)
    requires SortedStrings(ws) && 0 <= mid < |ws| && Less(pattern, ws[mid])
    ensures forall k :: mid <= k < |ws| ==> Less(pattern, ws[k])
  {
    forall k | mid < k < |ws|
      ensures Less(pattern, ws[k])
    {
      LessLessEq(pattern, ws[mid], ws[k]);
    }
  }

  /** In sorted keys, a key not above the pattern has only such keys before it. */
  lemma NotAboveBefore(ws: seq<string>, pattern: string, mid: int)
    requires SortedStrings(ws) && 0 <= mid < |ws| && !Less(pattern, ws[mid])
    ensures forall k :: 0 <= k <= mid ==> !Less(pattern, ws[k])
  {
    forall k | 0 <= k < mid
      ensures !Less(pattern, ws[k])
    {
      NotAboveChain(pattern, ws[k], ws[mid]);
    }
  }

  /** The first loop: the least row whose cut suffix is not below the pattern. */
  method SearchStart(text: string, pattern: string, sa: seq<int>) returns (start: int)
    requires ValidRows(text, sa)
    ensures 0 <= start <= |text|
    ensures SortedStrings(Windows(text, sa, |pattern|)) ==>
      (forall k :: 0 <= k < start ==> Less(Windows(text, sa, |pattern|)[k], pattern))
      && (forall k :: start <= k < |sa| ==> !Less(Windows(text, sa, |pattern|)[k], pattern))
  {
    ghost var ws := Windows(text, sa, |pattern|);
    var lo := 0;
    var hi := |text|;
    while lo < hi
      invariant 0 <= lo <= hi <= |text|
      invariant SortedStrings(ws) ==> forall k :: 0 <= k < lo ==> Less(ws[k], pattern)
      invariant SortedStrings(ws) ==> forall k :: hi <= k < |ws| ==> !Less(ws[k], pattern)
      decreases hi - lo
    {
      var mid := (lo + hi) / 2;
      if Less(Window(text, sa[mid], |pattern|), pattern) {
        if SortedStrings(ws) {
          BelowBefore(ws, pattern, mid);
        }
        lo := mid + 1;
      } else {
        if SortedStrings(ws) {
          NotBelowAfter(ws, pattern, mid);
        }
        hi := mid;
      }
    }
    start := lo;
  }

  /** The second loop, from the first loop's row: the last row whose cut suffix is not above the pattern. */
  method SearchEnd(text: string, pattern: string, sa: seq<int>, start: int) returns (end: int)
    requires ValidRows(text, sa) && 0 <= start <= |text|
    requires SortedStrings(Windows(text, sa, |pattern|)) ==> forall k :: 0 <= k < start ==> Less(Windows(text, sa, |pattern|)[k], pattern)
    ensures start - 1 <= end < |text|
    ensures SortedStrings(Windows(text, sa, |pattern|)) ==>
      (forall k :: 0 <= k <= end ==> !Less(pattern, Windows(text, sa, |pattern|)[k]))
      && (forall k :: end < k < |sa| ==> Less(pattern, Windows(text, sa, |pattern|)[k]))
  {
    ghost var ws := Windows(text, sa, |pattern|);
    var lo := start;
    var hi := |text|;
    if SortedStrings(ws) {
      forall k | 0 <= k < start
        ensures !Less(pattern, ws[k])
      {
        LessAsymmetric(ws[k], pattern);
      }
    }
    while lo < hi
      invariant start <= lo <= hi <= |text|
      invariant SortedStrings(ws) ==> forall k :: 0 <= k < lo ==> !Less(pattern, ws[k])
      invariant SortedStrings(ws) ==> forall k :: hi <= k < |ws| ==> Less(pattern, ws[k])
      decreases hi - lo
    {
      var mid := (lo + hi) / 2;
      if Less(pattern, Window(text, sa[mid], |pattern|)) {
        if SortedStrings(ws) {
          AboveAfter(ws, pattern, mid);
        }
        hi := mid;
      } else {
        if SortedStrings(ws) {
          NotAboveBefore(ws, pattern, mid);
        }
        lo := mid + 1;
      }
    }
    end := hi - 1;
  }

  /** `pattern_matching_with_suffix_array`: over sorted rows, exactly the rows whose cut suffix is the pattern. */
  method PatternMatching(text: string, pattern: string, sa: seq<int>) returns (r: Option<(int, int)>)
    requires ValidRows(text, sa)
    ensures r.Some? ==> 0 <= r.value.0 <= r.value.1 < |text|
    ensures SortedStrings(Windows(text, sa, |pattern|)) ==> RangeRows(r) == MatchRows(text, sa, pattern)
  {
    var start := SearchStart(text, pattern, sa);
    var end := SearchEnd(text, pattern, sa, start);
    if start > end {
      r := None;
    } else {
      r := Some((start, end));
    }
    ghost var ws := Windows(text, sa, |pattern|);
    if SortedStrings(ws) {
      forall k | 0 <= k < |sa|
        ensures k in RangeRows(r) <==> ws[k] == pattern
      {
        LessTotal(ws[k], pattern);
        if ws[k] == pattern {
          LessIrreflexive(pattern);
        }
      }
    }
  }

  /** The half-open range `range(start, end + 1)` the caller walks for a returned `(start, end)`. */
  function HalfOpen(r: Option<(int, int)>): Option<(int, int)>
  {
    match r
    case None => None
    case Some((start, end)) => Some((start, end + 1))
  }

  lemma FirstCharLe(x: string, y: string)
    requires LessEq(x, y) && |x| > 0 && |y| > 0
    ensures x[0] <= y[0]
  {
  }

  /** Cutting two ordered strings to the same length keeps them ordered. */
  lemma {:induction false} TruncateLessEq(x: string, y: string, m: nat)
    requires LessEq(x, y)
    ensures LessEq(x[..Min(m, |x|)], y[..Min(m, |y|)])
    decreases m
  {
    if x != y && m > 0 && |x| > 0 && x[0] == y[0] {
      TruncateLessEq(x[1..], y[1..], m - 1);
      var a, b := x[..Min(m, |x|)], y[..Min(m, |y|)];
      assert a[1..] == x[1..][..Min(m - 1, |x| - 1)];
      assert b[1..] == y[1..][..Min(m - 1, |y| - 1)];
      if a[1..] == b[1..] {
        assert a == [a[0]] + a[1..] && b == [b[0]] + b[1..];
      }
    }
  }

  /** The least rotation of `text + '$'` starts at one of its two '$'s. */
  lemma FirstIsDollar(text: string, order: seq<int>)
    requires Terminated(text) && RotationsSorted(text + "$", order)
    ensures |text| - 1 <= order[0] <= |text|
  {
    var u := text + "$";
    var n := |text|;
    var b := PermutationCovers(order, n + 1, n - 1);
    if b > 0 {
      FirstCharLe(Rotation(u, order[0]), Rotation(u, n - 1));
    }
  }

  /**
   * Ordered suffixes of a '$'-terminated text give ordered rotations of
   * `text + '$'`, except that "$" comes after the empty suffix while "$$..."
   * comes before "$...".
   */
  lemma TailForward(text: string, p: nat, q: nat)
    requires Terminated(text) && p <= |text| && q <= |text| && !(p == |text| && q == |text| - 1)
    requires Less(Suffix(text, p), Suffix(text, q))
    ensures Less(Rotation(text + "$", p), Rotation(text + "$", q))
  {
    var u := text + "$";
    var n := |text|;
    var rp, rq := Rotation(u, p), Rotation(u, q);
    if p == n {
      LessAtDifference(rp, rq, 0);
    } else {
      var sp, sq := Suffix(text, p), Suffix(text, q);
      var k := LessImpliesDifference(sp, sq);
      assert rp[..k] == sp[..k] && rq[..k] == sq[..k];
      LessAtDifference(rp, rq, k);
    }
  }

  /** Away from the pair of '$' positions, ordered rotations of `text + '$'` are ordered suffixes of text. */
  lemma TailOrder(text: string, p: nat, q: nat)
    requires Terminated(text) && p <= |text| && q <= |text| && p != q
    requires !(p == |text| && q == |text| - 1) && !(q == |text| && p == |text| - 1)
    ensures LessEq(Rotation(text + "$", p), Rotation(text + "$", q)) ==> LessEq(Suffix(text, p), Suffix(text, q))
  {
    var sp, sq := Suffix(text, p), Suffix(text, q);
    LessTotal(sp, sq);
    if Less(sq, sp) {
      TailForward(text, q, p);
      LessAsymmetric(Rotation(text + "$", q), Rotation(text + "$", p));
      LessIrreflexive(Rotation(text + "$", q));
    }
  }

  /** With its least rotation dropped, the array of `text + '$'` lists the suffixes of text in order. */
  lemma TailSuffixesSorted(text: string, first: int, sa: seq<int>)
    requires Terminated(text) && RotationsSorted(text + "$", [first] + sa)
    ensures ValidRows(text, sa) && |text| - 1 <= first <= |text|
    ensures forall a, b :: 0 <= a < b < |sa| ==> LessEq(Suffix(text, sa[a]), Suffix(text, sa[b]))
  {
    var order := [first] + sa;
    FirstIsDollar(text, order);
    assert forall k :: 0 <= k < |sa| ==> order[k + 1] == sa[k];
    forall a, b | 0 <= a < b < |sa|
      ensures LessEq(Suffix(text, sa[a]), Suffix(text, sa[b]))
    {
      assert order[a + 1] == sa[a] && order[b + 1] == sa[b];
      TailOrder(text, sa[a], sa[b]);
    }
  }

  /** Two ordered suffixes stay ordered once cut to the same length. */
  lemma WindowsOrdered(text: string, p: nat, q: nat, m: nat)
    requires p <= |text| && q <= |text| && LessEq(Suffix(text, p), Suffix(text, q))
    ensures LessEq(Window(text, p, m), Window(text, q, m))
  {
    TruncateLessEq(Suffix(text, p), Suffix(text, q), m);
    assert Window(text, p, m) == Suffix(text, p)[..Min(m, |text| - p)];
    assert Window(text, q, m) == Suffix(text, q)[..Min(m, |text| - q)];
  }

  /** Hence its cut suffixes are sorted, whatever the pattern length. */
  lemma TailWindowsSorted(text: string, first: int, sa: seq<int>, m: nat)
    requires Terminated(text) && RotationsSorted(text + "$", [first] + sa)
    ensures ValidRows(text, sa) && SortedStrings(Windows(text, sa, m))
  {
    TailSuffixesSorted(text, first, sa);
    var ws := Windows(text, sa, m);
    forall a, b | 0 <= a < b < |sa|
      ensures LessEq(ws[a], ws[b])
    {
      WindowsOrdered(text, sa[a], sa[b], m);
    }
  }

  /** The entries of the matching rows are the positions where a non-empty, '$'-free pattern occurs. */
  lemma MatchRowsOccurrences(text: string, first: int, sa: seq<int>, pattern: string)
    requires Terminated(text) && RotationsSorted(text + "$", [first] + sa) && |pattern| > 0 && '$' !in pattern
    ensures ValidRows(text, sa) && (set k | k in MatchRows(text, sa, pattern) :: sa[k]) == OccurrencesOf(pattern, text)
  {
    TailSuffixesSorted(text, first, sa);
    var n := |text|;
    var order := [first] + sa;
    var found := set k | k in MatchRows(text, sa, pattern) :: sa[k];
    forall i | i in found
      ensures i in OccurrencesOf(pattern, text)
    {
      var k :| k in MatchRows(text, sa, pattern) && sa[k] == i;
      assert Window(text, i, |pattern|) == pattern;
    }
    forall i | i in OccurrencesOf(pattern, text)
      ensures i in found
    {
      assert text[i..i + |pattern|] == pattern;
      assert pattern[0] == text[i];
      var c := PermutationCovers(order, n + 1, i);
      assert sa[c - 1] == i;
      assert Window(text, i, |pattern|) == pattern;
      assert c - 1 in MatchRows(text, sa, pattern);
    }
  }

  /** One pattern of the loop: the rows it walks hold exactly the pattern's occurrences. */
  lemma SearchedOccurrences(text: string, first: int, sa: seq<int>, pattern: string, r: Option<(int, int)>)
    requires Terminated(text) && RotationsSorted(text + "$", [first] + sa) && |pattern| > 0 && '$' !in pattern
    requires ValidRows(text, sa) && (SortedStrings(Windows(text, sa, |pattern|)) ==> RangeRows(r) == MatchRows(text, sa, pattern))
    requires r.Some? ==> 0 <= r.value.0 <= r.value.1 < |text|
    ensures Located(sa, HalfOpen(r)) == OccurrencesOf(pattern, text)
  {
    TailWindowsSorted(text, first, sa, |pattern|);
    MatchRowsOccurrences(text, first, sa, pattern);
  }

  /** The loop of `find_occurrences` over the patterns, given the array with its dropped first entry. */
  method CollectMatches(text: string, sa: seq<int>, ghost first: int, patterns: seq<string>) returns (occurrences: set<int>)
    requires ValidRows(text, sa) && RotationsSorted(text + "$", [first] + sa)
    ensures forall x :: x in occurrences ==> 0 <= x <= |text|
    ensures Terminated(text) && (forall k :: 0 <= k < |patterns| ==> |patterns[k]| > 0 && '$' !in patterns[k])
      ==> occurrences == AllOccurrences(patterns, text)
  {
    ghost var good := Terminated(text) && forall k :: 0 <= k < |patterns| ==> |patterns[k]| > 0 && '$' !in patterns[k];
    occurrences := {};
    for j := 0 to |patterns|
      invariant forall x :: x in occurrences ==> 0 <= x <= |text|
      invariant good ==> occurrences == AllOccurrences(patterns[..j], text)
    {
      var r := PatternMatching(text, patterns[j], sa);
      occurrences := CollectRange(sa, HalfOpen(r), occurrences);
      if good {
        SearchedOccurrences(text, first, sa, patterns[j], r);
      }
      assert patterns[..j + 1][..j] == patterns[..j];
    }
    assert patterns[..|patterns|] == patterns;
  }

  /**
   * `find_occurrences` of suffix_array_matching, for the text as `__main__`
   * passes it (already ending in '$').
   */
  method FindOccurrences(text: string, patterns: seq<string>, alphabet: string) returns (occurrences: set<int>)
    requires StrictlyIncreasing(alphabet) && Over(text + "$", alphabet)
    ensures forall x :: x in occurrences ==> 0 <= x <= |text|
    ensures Terminated(text) && (forall k :: 0 <= k < |patterns| ==> |patterns[k]| > 0 && '$' !in patterns[k])
      ==> occurrences == AllOccurrences(patterns, text)
  {
    var sa := BuildSuffixArrayTail(alphabet, text + "$");
    ghost var first :| RotationsSorted(text + "$", [first] + sa);
    assert forall k :: 0 <= k < |sa| ==> ([first] + sa)[k + 1] == sa[k];
    occurrences := CollectMatches(text, sa, first, patterns);
  }
}
