/**
 * Python's `list.sort()` as used by the reference builders: a stable
 * comparison sort under a total preorder.  It is modelled by insertion
 * sort, whose contract is what the library promises: the result is
 * ordered and holds the same elements.
 */
module Sorting {

  /** le is total and transitive: the shape of Python's `<=` on strings and tuples. */
  ghost predicate TotalPreorder<T(!new)>(le: (T, T) -> bool)
  {
    (forall a, b :: le(a, b) || le(b, a))
    && (forall a, b, c {:trigger le(a, b), le(b, c)} :: le(a, b) && le(b, c) ==> le(a, c))
  }

  predicate Ordered<T>(s: seq<T>, le: (T, T) -> bool)
  {
    forall i, j :: 0 <= i < j < |s| ==> le(s[i], s[j])
  }

  /** Insert x into the ordered s after every element it is not strictly below. */
  function Insert<T(!new)>(x: T, s: seq<T>, le: (T, T) -> bool): (r: seq<T>)
    requires TotalPreorder(le) && Ordered(s, le)
    ensures |r| == |s| + 1 && Ordered(r, le)
    ensures multiset(r) == multiset(s) + multiset{x}
    decreases |s|
  {
    if |s| == 0 then [x]
    else if le(x, s[0]) then
      assert forall j :: 0 < j < |s| ==> le(x, s[j]);
      [x] + s
    else
      var rest := Insert(x, s[1..], le);
      assert s == [s[0]] + s[1..];
      HeadBelowRest(x, s, rest, le);
      OrderedCons(s[0], rest, le);
      [s[0]] + rest
  }

  /** When x goes after the head of s, the head is below everything the rest becomes. */
  lemma HeadBelowRest<T(!new)>(x: T, s: seq<T>, rest: seq<T>, le: (T, T) -> bool)
    requires TotalPreorder(le) && Ordered(s, le) && 0 < |s| && !le(x, s[0])
    requires multiset(rest) == multiset(s[1..]) + multiset{x}
    ensures forall j :: 0 <= j < |rest| ==> le(s[0], rest[j])
  {
    forall j | 0 <= j < |rest|
      ensures le(s[0], rest[j])
    {
      assert rest[j] in multiset(rest);
      if rest[j] in multiset(s[1..]) {
        var k :| 0 <= k < |s[1..]| && s[1..][k] == rest[j];
        assert le(s[0], s[k + 1]);
      }
    }
  }

  lemma OrderedCons<T>(h: T, rest: seq<T>, le: (T, T) -> bool)
    requires Ordered(rest, le) && forall j :: 0 <= j < |rest| ==> le(h, rest[j])
    ensures Ordered([h] + rest, le)
  {
    forall i, j | 0 <= i < j < |rest| + 1
      ensures le(([h] + rest)[i], ([h] + rest)[j])
    {
      if i > 0 {
        assert ([h] + rest)[i] == rest[i - 1];
      }
      assert ([h] + rest)[j] == rest[j - 1];
    }
  }

  /** The ordered rearrangement of s. */
  function Sort<T(!new)>(s: seq<T>, le: (T, T) -> bool): (r: seq<T>)
    requires TotalPreorder(le)
    ensures |r| == |s| && Ordered(r, le) && multiset(r) == multiset(s)
    decreases |s|
  {
    if |s| == 0 then []
    else
      assert s == [s[0]] + s[1..];
      Insert(s[0], Sort(s[1..], le), le)
  }

  /** f applied to every element, as a Python list comprehension. */
  function Map<T, U>(f: T -> U, s: seq<T>): (r: seq<U>)
    ensures |r| == |s| && forall i :: 0 <= i < |s| ==> r[i] == f(s[i])
  {
    seq(|s|, i requires 0 <= i < |s| => f(s[i]))
  }

  lemma MapConcat<T, U>(f: T -> U, a: seq<T>, b: seq<T>)
    ensures Map(f, a + b) == Map(f, a) + Map(f, b)
  {
  }

  /** Taking out the element at j takes one copy of it out of the multiset. */
  lemma RemoveAt<T>(b: seq<T>, j: nat)
    requires j < |b|
    ensures multiset(b) == multiset(b[..j] + b[j + 1..]) + multiset{b[j]}
  {
    assert b == b[..j] + [b[j]] + b[j + 1..];
  }

  lemma Cancel<T>(m: multiset<T>, n: multiset<T>, x: T)
    requires m + multiset{x} == n + multiset{x}
    ensures m == n
  {
    forall z
      ensures m[z] == n[z]
    {
      assert (m + multiset{x})[z] == (n + multiset{x})[z];
    }
  }

  /** Mapping two rearrangements of each other gives rearrangements of each other. */
  lemma {:induction false} MapRearrangement<T, U>(f: T -> U, a: seq<T>, b: seq<T>)
    requires multiset(a) == multiset(b)
    ensures multiset(Map(f, a)) == multiset(Map(f, b))
    decreases |a|
  {
    if |a| == 0 {
      assert |b| == |multiset(b)| == 0;
    } else {
      var x := a[|a| - 1];
      var a' := a[..|a| - 1];
      assert a == a' + [x];
      assert x in multiset(b);
      var j :| 0 <= j < |b| && b[j] == x;
      var b' := b[..j] + b[j + 1..];
      RemoveAt(b, j);
      Cancel(multiset(a'), multiset(b'), x);
      MapRearrangement(f, a', b');
      MapConcat(f, a', [x]);
      assert b == (b[..j] + [x]) + b[j + 1..];
      MapConcat(f, b[..j] + [x], b[j + 1..]);
      MapConcat(f, b[..j], [x]);
      MapConcat(f, b[..j], b[j + 1..]);
    }
  }
}
