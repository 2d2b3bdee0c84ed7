/**
 * The slot a stable counting sort gives each entry of a key sequence: the
 * number of smaller keys plus the number of earlier equal keys.  On the
 * characters of a Burrows-Wheeler transform this is the Last-to-First mapping.
 */
module CountingSort {
  import opened StringSpec

  /** Character codes, the keys under which Python compares characters. */
  function Codes(s: string): (r: seq<int>)
    ensures |r| == |s| && forall i :: 0 <= i < |s| ==> r[i] == s[i] as int
  {
    seq(|s|, i requires 0 <= i < |s| => s[i] as int)
  }

  /** Number of entries of s strictly below x. */
  function CountBelow(x: int, s: seq<int>): nat
  {
    if |s| == 0 then 0 else CountBelow(x, s[..|s| - 1]) + (if s[|s| - 1] < x then 1 else 0)
  }

  /** Slot of entry j once s is stably sorted. */
  function Dest(s: seq<int>, j: int): (d: int)
    requires 0 <= j < |s|
    ensures 0 <= d < |s|
  {
    CountPrefixStep(s[j], s, j);
    CountPrefixMono(s[j], s, j + 1, |s|);
    assert s[..|s|] == s;
    CountBelowTotal(s[j], s);
    CountBelow(s[j], s) + Count(s[j], s[..j])
  }

  /** All slots, in the order of the entries. */
  function DestSeq(s: seq<int>): (d: seq<int>)
    ensures |d| == |s| && forall j :: 0 <= j < |s| ==> d[j] == Dest(s, j)
  {
    seq(|s|, j requires 0 <= j < |s| => Dest(s, j))
  }

  lemma CountBelowPrefixStep(x: int, s: seq<int>, i: nat)
    requires i < |s|
    ensures CountBelow(x, s[..i + 1]) == CountBelow(x, s[..i]) + (if s[i] < x then 1 else 0)
  {
    assert s[..i + 1][..i] == s[..i];
  }

  lemma {:induction false} CountBelowAppend(x: int, a: seq<int>, b: seq<int>)
    ensures CountBelow(x, a + b) == CountBelow(x, a) + CountBelow(x, b)
    decreases |b|
  {
    if |b| == 0 {
      assert a + b == a;
    } else {
      assert (a + b)[..|a + b| - 1] == a + b[..|b| - 1];
      CountBelowAppend(x, a, b[..|b| - 1]);
    }
  }

  /** The entries below x and those equal to x are disjoint parts of s. */
  lemma {:induction false} CountBelowTotal(x: int, s: seq<int>)
    ensures CountBelow(x, s) + Count(x, s) <= |s|
    decreases |s|
  {
    if |s| > 0 {
      CountBelowTotal(x, s[..|s| - 1]);
    }
  }

  /** Entries below or equal to x are all below any larger y. */
  lemma {:induction false} CountBelowMono(x: int, y: int, s: seq<int>)
    requires x < y
    ensures CountBelow(x, s) + Count(x, s) <= CountBelow(y, s)
    decreases |s|
  {
    if |s| > 0 {
      CountBelowMono(x, y, s[..|s| - 1]);
    }
  }

  lemma CountPrefixMono<T>(x: T, s: seq<T>, i: nat, j: nat)
    requires i <= j <= |s|
    ensures Count(x, s[..i]) <= Count(x, s[..j])
  {
    assert s[..j] == s[..i] + s[i..j];
    CountAppend(x, s[..i], s[i..j]);
  }

  /** Entry j lands inside the block of its own key. */
  lemma DestInBlock(s: seq<int>, j: nat)
    requires j < |s|
    ensures CountBelow(s[j], s) <= Dest(s, j) < CountBelow(s[j], s) + Count(s[j], s)
  {
    CountPrefixStep(s[j], s, j);
    CountPrefixMono(s[j], s, j + 1, |s|);
    assert s[..|s|] == s;
  }

  lemma DestRange(s: seq<int>, j: nat)
    requires j < |s|
    ensures 0 <= Dest(s, j) < |s|
  {
    DestInBlock(s, j);
    CountBelowTotal(s[j], s);
  }

  /** Slots follow the keys, and equal keys keep their order (stability). */
  lemma DestOrder(s: seq<int>, i: nat, j: nat)
    requires i < j < |s|
    ensures s[i] <= s[j] ==> Dest(s, i) < Dest(s, j)
    ensures s[i] > s[j] ==> Dest(s, i) > Dest(s, j)
  {
    DestInBlock(s, i);
    DestInBlock(s, j);
    if s[i] < s[j] {
      CountBelowMono(s[i], s[j], s);
    } else if s[i] > s[j] {
      CountBelowMono(s[j], s[i], s);
    } else {
      CountPrefixStep(s[i], s, i);
      CountPrefixMono(s[i], s, i + 1, j);
    }
  }

  /** The slots are a permutation of the positions. */
  lemma DestPermutation(s: seq<int>)
    ensures IsPermutation(DestSeq(s), |s|)
  {
    var d := DestSeq(s);
    forall j | 0 <= j < |s|
      ensures 0 <= d[j] < |s|
    {
      DestRange(s, j);
    }
    forall i, j | 0 <= i < j < |s|
      ensures d[i] != d[j]
    {
      DestOrder(s, i, j);
    }
  }

  /** Every slot is the slot of some entry. */
  lemma DestOnto(s: seq<int>, q: int) returns (j: nat)
    requires 0 <= q < |s|
    ensures j < |s| && Dest(s, j) == q
  {
    DestPermutation(s);
    j := PermutationCovers(DestSeq(s), |s|, q);
  }

  /**
   * A sequence that puts entry j at slot Dest(s, j) keeps each key block
   * together: its slots are sorted by key and, within a key, by entry.
   */
  lemma DestInverseOrder(s: seq<int>, a: nat, b: nat)
    requires a < |s| && b < |s| && Dest(s, a) < Dest(s, b)
    ensures s[a] < s[b] || (s[a] == s[b] && a < b)
  {
    if a > b {
      DestOrder(s, b, a);
    } else if a < b {
      DestOrder(s, a, b);
    }
  }

  /** Count over character codes agrees with the count over characters. */
  lemma {:induction false} CountCodes(c: char, s: string)
    ensures Count(c as int, Codes(s)) == Count(c, s)
    decreases |s|
  {
    if |s| > 0 {
      assert Codes(s)[..|s| - 1] == Codes(s[..|s| - 1]);
      CountCodes(c, s[..|s| - 1]);
    }
  }

  lemma CodesPrefix(s: string, i: nat)
    requires i <= |s|
    ensures Codes(s)[..i] == Codes(s[..i])
  {
  }

  /**
   * out is the stable counting sort of vals by keys: the entry with key
   * keys[j] and value vals[j] sits at slot Dest(keys, j).
   */
  predicate StableSortOf(keys: seq<int>, vals: seq<int>, out: seq<int>)
  {
    |vals| == |keys| && |out| == |keys| && forall j :: 0 <= j < |keys| ==> out[Dest(keys, j)] == vals[j]
  }

  /** Entries i, ..., |keys|-1 already sit at their slots. */
  predicate Placed(result: seq<int>, keys: seq<int>, vals: seq<int>, i: nat)
  {
    |result| == |keys| && |vals| == |keys| && forall j :: i <= j < |keys| ==> result[Dest(keys, j)] == vals[j]
  }

  lemma PlaceStep(result: seq<int>, keys: seq<int>, vals: seq<int>, i: nat)
    requires i < |keys| && Placed(result, keys, vals, i + 1)
    ensures Placed(result[Dest(keys, i) := vals[i]], keys, vals, i)
  {
    forall j | i < j < |keys|
      ensures Dest(keys, j) != Dest(keys, i)
    {
      DestOrder(keys, i, j);
    }
  }

  /** Sorting a permutation of the positions yields a permutation of the positions. */
  lemma StableSortPermutation(keys: seq<int>, vals: seq<int>, out: seq<int>)
    requires StableSortOf(keys, vals, out) && IsPermutation(vals, |keys|)
    ensures IsPermutation(out, |keys|)
  {
    forall q | 0 <= q < |keys|
      ensures 0 <= out[q] < |keys|
    {
      var j := DestOnto(keys, q);
    }
    forall a, b | 0 <= a < b < |keys|
      ensures out[a] != out[b]
    {
      var ja := DestOnto(keys, a);
      var jb := DestOnto(keys, b);
      assert ja != jb;
      if ja < jb {
        assert vals[ja] != vals[jb];
      } else {
        assert vals[jb] != vals[ja];
      }
    }
  }

  /** For integer keys, the entries below x + 1 are those below x and those equal to x. */
  lemma {:induction false} CountBelowNext(x: int, s: seq<int>)
    ensures CountBelow(x + 1, s) == CountBelow(x, s) + Count(x, s)
    decreases |s|
  {
    if |s| > 0 {
      CountBelowNext(x, s[..|s| - 1]);
    }
  }

  lemma {:induction false} CountBelowNone(x: int, s: seq<int>)
    requires forall k :: 0 <= k < |s| ==> x <= s[k]
    ensures CountBelow(x, s) == 0
    decreases |s|
  {
    if |s| > 0 {
      CountBelowNone(x, s[..|s| - 1]);
    }
  }

  lemma {:induction false} CountBelowAll(x: int, s: seq<int>)
    requires forall k :: 0 <= k < |s| ==> s[k] < x
    ensures CountBelow(x, s) == |s|
    decreases |s|
  {
    if |s| > 0 {
      CountBelowAll(x, s[..|s| - 1]);
    }
  }

  /** Count as the size of the set of matching positions. */
  lemma {:induction false} CountCard<T>(x: T, s: seq<T>)
    ensures Count(x, s) == |set j | 0 <= j < |s| && s[j] == x|
    decreases |s|
  {
    if |s| > 0 {
      var s' := s[..|s| - 1];
      CountCard(x, s');
      var last := if s[|s| - 1] == x then {|s| - 1} else {};
      assert (set j | 0 <= j < |s| && s[j] == x) == (set j | 0 <= j < |s'| && s'[j] == x) + last;
    }
  }

  /** CountBelow as the size of the set of positions holding a smaller key. */
  lemma {:induction false} CountBelowCard(x: int, s: seq<int>)
    ensures CountBelow(x, s) == |set j | 0 <= j < |s| && s[j] < x|
    decreases |s|
  {
    if |s| > 0 {
      var s' := s[..|s| - 1];
      CountBelowCard(x, s');
      var last := if s[|s| - 1] < x then {|s| - 1} else {};
      assert (set j | 0 <= j < |s| && s[j] < x) == (set j | 0 <= j < |s'| && s'[j] < x) + last;
    }
  }

  /** An injective image of a set of positions below n has the size of the set. */
  lemma {:induction false} InjectiveImageCard(a: set<int>, f: seq<int>, n: nat)
    requires n <= |f| && forall j :: j in a ==> 0 <= j < n
    requires forall i, j :: i in a && j in a && i != j ==> f[i] != f[j]
    ensures |set j | j in a :: f[j]| == |a|
    decreases n
  {
    if n == 0 {
      assert a == {};
    } else {
      var a' := set j | j in a && j < n - 1;
      InjectiveImageCard(a', f, n - 1);
      var image' := set j | j in a' :: f[j];
      if n - 1 in a {
        assert a == a' + {n - 1};
        assert (set j | j in a :: f[j]) == image' + {f[n - 1]};
        assert f[n - 1] !in image';
      } else {
        assert a == a';
      }
    }
  }

  /** a read through the positions perm. */
  function Permuted<T>(a: seq<T>, perm: seq<int>): (r: seq<T>)
    requires forall j :: 0 <= j < |perm| ==> 0 <= perm[j] < |a|
    ensures |r| == |perm| && forall j :: 0 <= j < |perm| ==> r[j] == a[perm[j]]
  {
    seq(|perm|, j requires 0 <= j < |perm| => a[perm[j]])
  }

  /** Reading a sequence through a permutation keeps every count. */
  lemma PermutedCount<T>(a: seq<T>, perm: seq<int>, x: T)
    requires IsPermutation(perm, |a|)
    ensures Count(x, Permuted(a, perm)) == Count(x, a)
  {
    var r := Permuted(a, perm);
    CountCard(x, r);
    CountCard(x, a);
    var eqR := set j | 0 <= j < |r| && r[j] == x;
    InjectiveImageCard(eqR, perm, |a|);
    MatchesImage(a, perm, r, x, eqR);
  }

  /** perm carries the positions of x in the permuted sequence onto those in a. */
  lemma MatchesImage<T>(a: seq<T>, perm: seq<int>, r: seq<T>, x: T, eqR: set<int>)
    requires IsPermutation(perm, |a|) && r == Permuted(a, perm) && eqR == set j | 0 <= j < |r| && r[j] == x
    ensures (set j | j in eqR :: perm[j]) == set j | 0 <= j < |a| && a[j] == x
  {
    var image := set j | j in eqR :: perm[j];
    var eqA := set p | 0 <= p < |a| && a[p] == x;
    forall p | p in eqA
      ensures p in image
    {
      var j := PermutationCovers(perm, |a|, p);
      assert j in eqR;
    }
    forall p | p in image
      ensures p in eqA
    {
      var j :| j in eqR && perm[j] == p;
      assert r[j] == a[p];
    }
  }

  lemma PermutedCountBelow(a: seq<int>, perm: seq<int>, x: int)
    requires IsPermutation(perm, |a|)
    ensures CountBelow(x, Permuted(a, perm)) == CountBelow(x, a)
  {
    var r := Permuted(a, perm);
    CountBelowCard(x, r);
    CountBelowCard(x, a);
    var ltR := set j | 0 <= j < |r| && r[j] < x;
    InjectiveImageCard(ltR, perm, |a|);
    forall p | 0 <= p < |a| && a[p] < x
      ensures p in (set j | j in ltR :: perm[j])
    {
      var j := PermutationCovers(perm, |a|, p);
      assert j in ltR;
    }
    assert (set j | j in ltR :: perm[j]) == set p | 0 <= p < |a| && a[p] < x;
  }

  /** Reading a sequence through a permutation rearranges it. */
  lemma PermutedMultiset<T>(a: seq<T>, perm: seq<int>)
    requires IsPermutation(perm, |a|)
    ensures multiset(Permuted(a, perm)) == multiset(a)
  {
    forall x
      ensures multiset(Permuted(a, perm))[x] == multiset(a)[x]
    {
      PermutedCount(a, perm, x);
      CountMultiset(x, a);
      CountMultiset(x, Permuted(a, perm));
    }
  }

  /** Entry a comes before entry b in the stable order: smaller key, or equal key and earlier. */
  predicate Before(s: seq<int>, a: int, b: int)
    requires 0 <= a < |s| && 0 <= b < |s|
  {
    s[a] < s[b] || (s[a] == s[b] && a < b)
  }

  /** The entries before r: those with a smaller key, and those with the same key further left. */
  lemma BeforeSplit(s: seq<int>, r: nat)
    requires r < |s|
    ensures (set j | 0 <= j < |s| && Before(s, j, r))
         == (set j | 0 <= j < |s| && s[j] < s[r]) + (set j | 0 <= j < r && s[j] == s[r])
    ensures (set j | 0 <= j < |s| && s[j] < s[r]) * (set j | 0 <= j < r && s[j] == s[r]) == {}
  {
  }

  /** The occurrences of x among the first r entries, as a set of positions. */
  lemma {:induction false} CountPositions(x: int, s: seq<int>, r: nat)
    requires r <= |s|
    ensures Count(x, s[..r]) == |set j | 0 <= j < r && s[j] == x|
    decreases r
  {
    if r > 0 {
      CountPositions(x, s, r - 1);
      assert s[..r][..r - 1] == s[..r - 1];
      var last := if s[r - 1] == x then {r - 1} else {};
      assert (set j | 0 <= j < r && s[j] == x) == (set j | 0 <= j < r - 1 && s[j] == x) + last;
    }
  }

  /** The slot of entry r is the number of entries before it. */
  lemma DestRank(s: seq<int>, r: nat)
    requires r < |s|
    ensures Dest(s, r) == |set j | 0 <= j < |s| && Before(s, j, r)|
  {
    var x := s[r];
    var below, equal := set j | 0 <= j < |s| && s[j] < x, set j | 0 <= j < r && s[j] == x;
    CountBelowCard(x, s);
    CountPositions(x, s, r);
    BeforeSplit(s, r);
    assert |below + equal| == |below| + |equal|;
  }

  /**
   * A permutation of the positions that follows the stable order is the
   * stable counting sort's slot assignment.
   */
  lemma MonotoneIsDest(s: seq<int>, g: seq<int>, r: nat)
    requires IsPermutation(g, |s|) && r < |s|
    requires forall a, b :: 0 <= a < |s| && 0 <= b < |s| && Before(s, a, b) ==> g[a] < g[b]
    ensures g[r] == Dest(s, r)
  {
    var n := |s|;
    var before := set j | 0 <= j < n && Before(s, j, r);
    var image := set j | j in before :: g[j];
    var ids := seq(g[r], k => k);
    forall k | 0 <= k < g[r]
      ensures ids[k] in image
    {
      var j := PermutationCovers(g, n, k);
      assert Before(s, j, r);
    }
    forall j | j in before
      ensures g[j] in set k | 0 <= k < g[r] :: ids[k]
    {
      assert ids[g[j]] == g[j];
    }
    assert image == set k | 0 <= k < g[r] :: ids[k];
    InjectiveImageCard(before, g, n);
    DistinctImageCard(ids);
    DestRank(s, r);
  }
}
