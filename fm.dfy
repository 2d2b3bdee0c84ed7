/**
 * Backward search over a Burrows-Wheeler transform, the counting half of
 * the FM-index: the row interval `[top, bottom]` starts as every row and is
 * narrowed by one pattern symbol at a time, from the pattern's end, to
 * `starts[c] + occ_counts_before[c][top]` and
 * `starts[c] + occ_counts_before[c][bottom + 1] - 1`.  For a '$'-terminated
 * text the final interval holds exactly the rows of the suffix array whose
 * suffix begins with the pattern.
 */
module BackwardSearch {
  import opened StringSpec
  import opened CountingSort
  import opened SuffixArray
  import opened BurrowsWheeler
  import opened NaiveSuffixArray
  import opened LastToFirst
  import opened Starts

  /** `[top, bottom]` is a row interval of an n-row matrix; it is empty exactly when top == bottom + 1. */
  predicate IsInterval(n: int, top: int, bottom: int)
  {
    0 <= top <= bottom + 1 <= n
  }

  /** One backward step with symbol c, with `starts[c]` the first row of c's block (0 when c is absent). */
  function Narrow(bwt: string, c: char, top: int, bottom: int): (r: (int, int))
    requires IsInterval(|bwt|, top, bottom)
    ensures IsInterval(|bwt|, r.0, r.1)
    ensures r.1 - r.0 + 1 <= bottom - top + 1
  {
    CountPrefixMono(c, bwt, top, bottom + 1);
    CountPrefixMono(c, bwt, bottom + 1, |bwt|);
    assert bwt[..|bwt|] == bwt;
    assert bwt[..bottom + 1] == bwt[..top] + bwt[top..bottom + 1];
    CountAppend(c, bwt[..top], bwt[top..bottom + 1]);
    CountBound(c, bwt[top..bottom + 1]);
    CountCodes(c, bwt);
    CountBelowTotal(c as int, Codes(bwt));
    (Start(bwt, c) + Count(c, bwt[..top]), Start(bwt, c) + Count(c, bwt[..bottom + 1]) - 1)
  }

  /** The interval left after consuming all of p, last symbol first. */
  function Interval(bwt: string, p: string): (r: (int, int))
    ensures IsInterval(|bwt|, r.0, r.1)
    decreases |p|
  {
    if |p| == 0 then (0, |bwt| - 1)
    else
      var rest := Interval(bwt, p[1..]);
      Narrow(bwt, p[0], rest.0, rest.1)
  }

  /** What `count_occurrences` returns: the size of the final interval, 0 once it has emptied. */
  function MatchCount(bwt: string, p: string): (k: nat)
    ensures k <= |bwt|
  {
    Interval(bwt, p).1 - Interval(bwt, p).0 + 1
  }

  /** An empty interval stays empty, whatever symbols are consumed after it. */
  lemma {:induction false} EmptyStaysEmpty(bwt: string, x: string, q: string)
    requires Interval(bwt, q).0 > Interval(bwt, q).1
    ensures Interval(bwt, x + q).0 > Interval(bwt, x + q).1
    decreases |x|
  {
    if |x| > 0 {
      assert (x + q)[1..] == x[1..] + q;
      EmptyStaysEmpty(bwt, x[1..], q);
    } else {
      assert x + q == q;
    }
  }

  /** A symbol absent from `bwt[top:bottom+1]` empties the interval. */
  lemma AbsentEmpties(bwt: string, c: char, top: int, bottom: int)
    requires IsInterval(|bwt|, top, bottom) && c !in bwt[top..bottom + 1]
    ensures Narrow(bwt, c, top, bottom).0 > Narrow(bwt, c, top, bottom).1
  {
    assert bwt[..bottom + 1] == bwt[..top] + bwt[top..bottom + 1];
    CountAppend(c, bwt[..top], bwt[top..bottom + 1]);
    CountAbsent(c, bwt[top..bottom + 1]);
  }

  /** A symbol present in `bwt[top:bottom+1]` leaves the interval non-empty. */
  lemma PresentKeeps(bwt: string, c: char, top: int, bottom: int)
    requires IsInterval(|bwt|, top, bottom) && c in bwt[top..bottom + 1]
    ensures Narrow(bwt, c, top, bottom).0 <= Narrow(bwt, c, top, bottom).1
  {
    var w := bwt[top..bottom + 1];
    var i :| 0 <= i < |w| && w[i] == c;
    CountPositive(c, w, i);
    assert bwt[..bottom + 1] == bwt[..top] + w;
    CountAppend(c, bwt[..top], w);
  }

  /** For a row r holding c, the rank of r lies in the count window of [top, bottom] exactly when r does. */
  lemma RankWindow(bwt: string, r: nat, top: int, bottom: int)
    requires IsInterval(|bwt|, top, bottom) && r < |bwt|
    ensures Count(bwt[r], bwt[..top]) <= Rank(bwt, r) < Count(bwt[r], bwt[..bottom + 1]) <==> top <= r <= bottom
  {
    var c := bwt[r];
    CountPrefixStep(c, bwt, r);
    if r < top {
      CountPrefixMono(c, bwt, r + 1, top);
    } else {
      CountPrefixMono(c, bwt, top, r);
    }
    if r <= bottom {
      CountPrefixMono(c, bwt, r + 1, bottom + 1);
    } else {
      CountPrefixMono(c, bwt, bottom + 1, r);
    }
  }

  /** The narrowed interval is the LF image of the rows of [top, bottom] whose last-column symbol is c. */
  lemma NarrowIsLFImage(bwt: string, c: char, top: int, bottom: int, r: nat)
    requires IsInterval(|bwt|, top, bottom) && r < |bwt|
    ensures Narrow(bwt, c, top, bottom).0 <= LF(bwt, r) <= Narrow(bwt, c, top, bottom).1
        <==> bwt[r] == c && top <= r <= bottom
  {
    var d := bwt[r];
    RankBelowCount(bwt, r);
    CountPositive(d, bwt, r);
    if d == c {
      RankWindow(bwt, r, top, bottom);
    } else {
      CountCodes(c, bwt);
      CountCodes(d, bwt);
      assert LF(bwt, r) == Smaller(bwt, d) + Rank(bwt, r);
      CountPrefixMono(c, bwt, bottom + 1, |bwt|);
      assert bwt[..|bwt|] == bwt;
      if Count(c, bwt) > 0 {
        assert Start(bwt, c) == Smaller(bwt, c);
        if d < c {
          CountBelowMono(d as int, c as int, Codes(bwt));
        } else {
          CountBelowMono(c as int, d as int, Codes(bwt));
        }
      }
    }
  }

  /** p is a prefix of s. */
  predicate Begins(p: string, s: string)
  {
    |p| <= |s| && s[..|p|] == p
  }

  /**
   * Stepping back from text position i to the one before it (cyclically)
   * puts the character there in front of the suffix: for a text ending in
   * '$' and a pattern not starting with '$', the pattern begins the earlier
   * suffix exactly when its first symbol is that character and the rest
   * begins the suffix at i.
   */
  lemma BeginsStep(t: string, p: string, i: int, before: char)
    requires |t| > 0 && t[|t| - 1] == '$' && 0 <= i < |t|
    requires |p| > 0 && p[0] != '$' && before == t[Pred(i, |t|)]
    ensures Begins(p, Suffix(t, Pred(i, |t|))) <==> before == p[0] && Begins(p[1..], Suffix(t, i))
  {
    var s := Suffix(t, i);
    if i == 0 {
      if |p| <= |Suffix(t, |t| - 1)| {
        assert Suffix(t, |t| - 1)[0] == '$';
      }
    } else {
      assert Suffix(t, i - 1) == [t[i - 1]] + s;
      if |p| <= |s| + 1 {
        assert ([t[i - 1]] + s)[..|p|] == [t[i - 1]] + s[..|p| - 1];
        assert p == [p[0]] + p[1..];
      }
    }
  }

  lemma NoDollarInTail(p: string)
    requires |p| > 0 && '$' !in p
    ensures '$' !in p[1..] && p[0] != '$'
  {
    assert forall k :: 0 <= k < |p[1..]| ==> p[1..][k] == p[k + 1];
  }

  /**
   * For a '$'-terminated text and a pattern without '$', row r lies in the
   * interval of p exactly when the suffix the suffix array lists at r
   * begins with p.
   */
  lemma {:induction false} IntervalRows(t: string, sa: seq<int>, p: string, r: nat)
    requires Terminated(t) && IsSuffixArray(t, sa) && '$' !in p && r < |t|
    ensures Interval(BwtOf(t), p).0 <= r <= Interval(BwtOf(t), p).1 <==> Begins(p, Suffix(t, sa[r]))
    decreases |p|
  {
    if |p| > 0 {
      var L := BwtOf(t);
      var rest := Interval(L, p[1..]);
      var j := LFOnto(L, r);
      NarrowIsLFImage(L, p[0], rest.0, rest.1, j);
      NoDollarInTail(p);
      IntervalRows(t, sa, p[1..], j);
      LFOnSuffixArray(t, sa, j);
      TerminatedLastColumn(t, sa, j);
      BeginsStep(t, p, sa[j], L[j]);
    }
  }

  /** The positions where p occurs in t. */
  function OccurrencesOf(p: string, t: string): (s: set<int>)
    ensures forall i :: i in s ==> 0 <= i < |t| && OccursAt(p, t, i)
    ensures forall i :: 0 <= i < |t| && OccursAt(p, t, i) ==> i in s
  {
    set i | 0 <= i < |t| && OccursAt(p, t, i)
  }

  /** The set of rows of an interval. */
  function Rows(top: int, bottom: int): (s: set<int>)
    ensures forall r :: r in s <==> top <= r <= bottom
    ensures top <= bottom + 1 ==> |s| == bottom - top + 1
    decreases bottom - top
  {
    if top > bottom then {} else Rows(top, bottom - 1) + {bottom}
  }

  /** The suffix-array entries of the interval's rows are the positions where p occurs. */
  lemma IntervalLocates(t: string, sa: seq<int>, p: string)
    requires Terminated(t) && IsSuffixArray(t, sa) && '$' !in p
    ensures var iv := Interval(BwtOf(t), p);
      (set r | r in Rows(iv.0, iv.1) :: sa[r]) == OccurrencesOf(p, t)
  {
    var iv := Interval(BwtOf(t), p);
    var located := set r | r in Rows(iv.0, iv.1) :: sa[r];
    forall i | i in located
      ensures i in OccurrencesOf(p, t)
    {
      var r :| r in Rows(iv.0, iv.1) && sa[r] == i;
      LocatedOccurs(t, sa, p, r);
    }
    forall i | i in OccurrencesOf(p, t)
      ensures i in located
    {
      var r := OccurrenceLocated(t, sa, p, i);
    }
  }

  lemma LocatedOccurs(t: string, sa: seq<int>, p: string, r: int)
    requires Terminated(t) && IsSuffixArray(t, sa) && '$' !in p
    requires Interval(BwtOf(t), p).0 <= r <= Interval(BwtOf(t), p).1
    ensures sa[r] in OccurrencesOf(p, t)
  {
    IntervalRows(t, sa, p, r);
    assert Suffix(t, sa[r])[..|p|] == t[sa[r]..sa[r] + |p|];
  }

  lemma OccurrenceLocated(t: string, sa: seq<int>, p: string, i: int) returns (r: nat)
    requires Terminated(t) && IsSuffixArray(t, sa) && '$' !in p && i in OccurrencesOf(p, t)
    ensures r in Rows(Interval(BwtOf(t), p).0, Interval(BwtOf(t), p).1) && r < |sa| && sa[r] == i
  {
    r := PermutationCovers(sa, |t|, i);
    IntervalRows(t, sa, p, r);
    assert Suffix(t, i)[..|p|] == t[i..i + |p|];
  }

  /**
   * The count backward search returns on the transform of a '$'-terminated
   * text is the number of occurrences of a pattern without '$'.
   */
  lemma MatchCountIsOccurrences(t: string, p: string)
    requires Terminated(t) && '$' !in p
    ensures MatchCount(BwtOf(t), p) == |OccurrencesOf(p, t)|
  {
    var sa := NaiveSuffixArrayOf(t);
    var iv := Interval(BwtOf(t), p);
    IntervalLocates(t, sa, p);
    InjectiveImageCard(Rows(iv.0, iv.1), sa, |t|);
  }
}
