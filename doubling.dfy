/**
 * Suffix array by prefix doubling.  After the character sort every position
 * gets the class of its first character; then, while the sorted length L is
 * below the text length, the cyclic substrings of length 2L are counting-sorted
 * by the class of their first half (the second half being already in order)
 * and reclassified by the pair of half classes.
 */
module PrefixDoubling {
  import opened StringSpec
  import opened CountingSort
  import opened CharacterSort

  /** The cyclic substring of t of length m that starts at p. */
  function Cyc(t: string, p: int, m: nat): (r: string)
    requires 0 < |t|
    ensures |r| == m && forall k :: 0 <= k < m ==> r[k] == t[(p + k) % |t|]
  {
    seq(m, k requires 0 <= k < m => t[(p + k) % |t|])
  }

  /** The classes of p and q compare as their cyclic substrings of length L. */
  ghost predicate ClassPair(t: string, L: nat, klass: seq<int>, p: int, q: int)
    requires 0 < |t| && |klass| == |t| && 0 <= p < |t| && 0 <= q < |t|
  {
    (klass[p] < klass[q] <==> Less(Cyc(t, p, L), Cyc(t, q, L)))
    && (klass[p] == klass[q] <==> Cyc(t, p, L) == Cyc(t, q, L))
  }

  /** klass ranks the cyclic substrings of length L: same order, same ties. */
  ghost predicate ClassInv(t: string, L: nat, klass: seq<int>)
    requires 0 < |t|
  {
    |klass| == |t|
    && (forall p :: 0 <= p < |t| ==> 0 <= klass[p] < |t|)
    && (forall p, q {:trigger ClassPair(t, L, klass, p, q)} :: 0 <= p < |t| && 0 <= q < |t| ==> ClassPair(t, L, klass, p, q))
  }

  /** The cyclic substring of length L at x is at most the one at y. */
  ghost predicate InOrder(t: string, L: nat, x: int, y: int)
    requires 0 < |t|
  {
    LessEq(Cyc(t, x, L), Cyc(t, y, L))
  }

  /** order lists the positions by their cyclic substrings of length L. */
  ghost predicate SortedBy(t: string, L: nat, order: seq<int>)
    requires 0 < |t|
  {
    IsPermutation(order, |t|)
    && forall a, b {:trigger InOrder(t, L, order[a], order[b])} :: 0 <= a < b < |t| ==> InOrder(t, L, order[a], order[b])
  }

  /** Positions shifted back by L, cyclically: `(order[i] - length + dim) % dim`. */
  function Shift(order: seq<int>, L: int): (s: seq<int>)
    ensures |s| == |order| && forall j :: 0 <= j < |s| ==> s[j] == (order[j] - L + |order|) % |order|
  {
    seq(|order|, j requires 0 <= j < |order| => (order[j] - L + |order|) % |order|)
  }

  lemma Mod2(x: int, n: int)
    requires n > 0 && 0 <= x < 2 * n
    ensures x % n == (if x < n then x else x - n)
  {
  }

  lemma Mod3(x: int, n: int)
    requires n > 0 && 0 <= x < 3 * n
    ensures x % n == (if x < n then x else if x < 2 * n then x - n else x - 2 * n)
  {
  }

  /** The position L ahead of p in a cyclic text of length n, for p < n and L <= n: `(p + L) % n`. */
  function Ahead(p: int, L: int, n: int): int
  {
    if p + L < n then p + L else p + L - n
  }

  /** A cyclic substring of length 2L is its first half followed by the half L further on. */
  lemma CycSplit(t: string, p: int, L: nat)
    requires 0 < |t| && 0 <= p < |t| && L <= |t|
    ensures Cyc(t, p, 2 * L) == Cyc(t, p, L) + Cyc(t, Ahead(p, L, |t|), L)
  {
    var n := |t|;
    var q := Ahead(p, L, n);
    Mod2(p + L, n);
    var whole := Cyc(t, p, 2 * L);
    var halves := Cyc(t, p, L) + Cyc(t, q, L);
    forall k | 0 <= k < 2 * L
      ensures whole[k] == halves[k]
    {
      if L <= k {
        Mod3(p + k, n);
        Mod2(q + (k - L), n);
        assert halves[k] == t[(q + (k - L)) % n];
      }
    }
    assert whole == halves;
  }

  /** Shifting back by L and then reading L further on returns to the original position. */
  lemma ShiftBack(order: seq<int>, L: int, j: nat)
    requires j < |order| && 0 <= order[j] < |order| && 0 <= L <= |order|
    ensures 0 <= Shift(order, L)[j] < |order|
    ensures Ahead(Shift(order, L)[j], L, |order|) == order[j]
  {
    var n := |order|;
    Mod2(order[j] - L + n, n);
    Mod2(Shift(order, L)[j] + L, n);
  }

  /** The shifted positions of a permutation form a permutation. */
  lemma ShiftPermutation(order: seq<int>, L: int)
    requires IsPermutation(order, |order|) && 0 <= L <= |order|
    ensures IsPermutation(Shift(order, L), |order|)
  {
    var s := Shift(order, L);
    forall j | 0 <= j < |order|
      ensures 0 <= s[j] < |order|
    {
      ShiftBack(order, L, j);
    }
    forall i, j | 0 <= i < j < |order|
      ensures s[i] != s[j]
    {
      ShiftBack(order, L, i);
      ShiftBack(order, L, j);
    }
  }

  /** Cyclic substrings of length 1 compare as their characters. */
  lemma CycOne(t: string, p: int, q: int)
    requires 0 <= p < |t| && 0 <= q < |t|
    ensures Cyc(t, p, 1) == [t[p]] && Cyc(t, q, 1) == [t[q]]
    ensures Less(Cyc(t, p, 1), Cyc(t, q, 1)) <==> t[p] < t[q]
  {
    Mod2(p, |t|);
    Mod2(q, |t|);
  }

  // ---------------------------------------------------------------------------
  // Classes that step along a sorted list rank it.
  // ---------------------------------------------------------------------------

  /** c starts at 0 along w and steps by one exactly where w changes. */
  predicate Steps(w: seq<string>, c: seq<int>)
  {
    |c| == |w|
    && (|w| > 0 ==> c[0] == 0)
    && forall i :: 0 < i < |w| ==> c[i] == c[i - 1] + (if w[i] != w[i - 1] then 1 else 0)
  }

  lemma {:induction false} StepsBetween(w: seq<string>, c: seq<int>, i: nat, j: nat)
    requires Steps(w, c) && SortedStrings(w) && i <= j < |w|
    ensures c[i] <= c[j] <= c[i] + (j - i)
    ensures c[i] == c[j] <==> w[i] == w[j]
    decreases j - i
  {
    if i < j {
      StepsBetween(w, c, i, j - 1);
      if w[i] == w[j] {
        assert LessEq(w[i], w[j - 1]) && LessEq(w[j - 1], w[j]);
        if w[j - 1] != w[i] {
          LessAsymmetric(w[i], w[j - 1]);
        }
      }
    }
  }

  /** Classes that step along a sorted list give exactly its order and its ties. */
  lemma StepsRank(w: seq<string>, c: seq<int>)
    requires Steps(w, c) && SortedStrings(w)
    ensures forall i :: 0 <= i < |w| ==> 0 <= c[i] <= i
    ensures forall i, j :: 0 <= i < |w| && 0 <= j < |w| ==>
              (c[i] < c[j] <==> Less(w[i], w[j])) && (c[i] == c[j] <==> w[i] == w[j])
  {
    forall i | 0 <= i < |w|
      ensures 0 <= c[i] <= i
    {
      StepsBetween(w, c, 0, i);
    }
    forall i, j | 0 <= i < |w| && 0 <= j < |w|
      ensures (c[i] < c[j] <==> Less(w[i], w[j])) && (c[i] == c[j] <==> w[i] == w[j])
    {
      if i <= j {
        StepsBetween(w, c, i, j);
        LessIrreflexive(w[i]);
      } else {
        StepsBetween(w, c, j, i);
        LessIrreflexive(w[i]);
        if Less(w[j], w[i]) {
          LessAsymmetric(w[j], w[i]);
        }
      }
    }
  }

  /** Steps along a permutation order give a ClassInv for the substrings listed by order. */
  lemma StepsClassInv(t: string, L: nat, order: seq<int>, klass: seq<int>)
    requires 0 < |t| && SortedBy(t, L, order) && |klass| == |t|
    requires Steps(seq(|t|, k requires 0 <= k < |t| => Cyc(t, order[k], L)),
                   seq(|t|, k requires 0 <= k < |t| => klass[order[k]]))
    ensures ClassInv(t, L, klass)
  {
    var n := |t|;
    var w := seq(n, k requires 0 <= k < n => Cyc(t, order[k], L));
    var c := seq(n, k requires 0 <= k < n => klass[order[k]]);
    forall i, j | 0 <= i < j < n
      ensures LessEq(w[i], w[j])
    {
      assert InOrder(t, L, order[i], order[j]);
    }
    StepsRank(w, c);
    forall p | 0 <= p < n
      ensures 0 <= klass[p] < n
    {
      var i := PermutationCovers(order, n, p);
      assert c[i] == klass[p];
    }
    forall p, q | 0 <= p < n && 0 <= q < n
      ensures ClassPair(t, L, klass, p, q)
    {
      var i := PermutationCovers(order, n, p);
      var j := PermutationCovers(order, n, q);
      assert c[i] == klass[p] && w[i] == Cyc(t, p, L);
      assert c[j] == klass[q] && w[j] == Cyc(t, q, L);
    }
  }

  /** Along order, classes start at 0 and each of entries 1, ..., i-1 steps by one exactly where diff says. */
  predicate StepsUpTo(order: seq<int>, c: seq<int>, diff: seq<bool>, i: nat)
    requires IsPermutation(order, |order|)
  {
    |c| == |order| && |diff| == |order| && i <= |order|
    && (|order| > 0 ==> c[order[0]] == 0)
    && forall k :: 0 < k < i ==> c[order[k]] == c[order[k - 1]] + (if diff[k] then 1 else 0)
  }

  /** Writing entry i's class keeps the earlier ones, since order is a permutation. */
  lemma StepWrite(order: seq<int>, c: seq<int>, diff: seq<bool>, i: nat)
    requires IsPermutation(order, |order|) && 0 < i < |order| && StepsUpTo(order, c, diff, i)
    ensures StepsUpTo(order, c[order[i] := c[order[i - 1]] + (if diff[i] then 1 else 0)], diff, i + 1)
  {
  }

  // ---------------------------------------------------------------------------
  // compute_char_classes
  // ---------------------------------------------------------------------------

  /**
   * Classes of the single characters: along order, the class starts at 0 and
   * goes up by one exactly where the character changes.
   */
  method ComputeCharClasses(text: string, order: seq<int>) returns (klass: seq<int>)
    requires IsPermutation(order, |text|)
    ensures |klass| == |text|
    ensures |text| > 0 ==> klass[order[0]] == 0
    ensures forall i :: 0 < i < |text| ==>
              klass[order[i]] == klass[order[i - 1]] + (if text[order[i]] != text[order[i - 1]] then 1 else 0)
  {
    var dim := |text|;
    klass := seq(dim, _ => 0);
    ghost var diff := seq(dim, k requires 0 <= k < dim => 0 < k && text[order[k]] != text[order[k - 1]]);
    var i := 1;
    while i < dim
      invariant (dim == 0 || 1 <= i <= dim) && StepsUpTo(order, klass, diff, if dim == 0 then 0 else i)
    {
      StepWrite(order, klass, diff, i);
      if text[order[i]] != text[order[i - 1]] {
        klass := klass[order[i] := klass[order[i - 1]] + 1];
      } else {
        klass := klass[order[i] := klass[order[i - 1]]];
      }
      i := i + 1;
    }
  }

  /** After a stable character sort, the character classes rank the single characters. */
  lemma CharClassesRank(text: string, order: seq<int>, klass: seq<int>)
    requires 0 < |text| && IsPermutation(order, |text|) && StableCharSort(text, order) && |klass| == |text|
    requires klass[order[0]] == 0
    requires forall i :: 0 < i < |text| ==>
               klass[order[i]] == klass[order[i - 1]] + (if text[order[i]] != text[order[i - 1]] then 1 else 0)
    ensures SortedBy(text, 1, order) && ClassInv(text, 1, klass)
  {
    var n := |text|;
    StableCharSortMeaning(text, order);
    forall a, b | 0 <= a < b < n
      ensures InOrder(text, 1, order[a], order[b])
    {
      CycOne(text, order[a], order[b]);
    }
    var w := seq(n, k requires 0 <= k < n => Cyc(text, order[k], 1));
    forall i | 0 < i < n
      ensures (w[i] != w[i - 1]) == (text[order[i]] != text[order[i - 1]])
    {
      CycOne(text, order[i], order[i - 1]);
    }
    StepsClassInv(text, 1, order, klass);
  }

  // ---------------------------------------------------------------------------
  // sort_doubled
  // ---------------------------------------------------------------------------

  /** count[v] holds the occurrences of class v among the first i classes. */
  predicate ClassTallied(count: seq<int>, keys: seq<int>, i: nat)
    requires i <= |keys|
  {
    |count| == |keys| && forall v :: 0 <= v < |count| ==> count[v] == Count(v, keys[..i])
  }

  /** The first j entries of count are running totals, the others still plain counts. */
  predicate ClassSummed(count: seq<int>, keys: seq<int>, j: nat)
  {
    |count| == |keys| && j <= |count|
    && (forall v :: 0 <= v < j ==> count[v] == CountBelow(v + 1, keys))
    && (forall v :: j <= v < |count| ==> count[v] == Count(v, keys))
  }

  /** count[v] is one past the slot of the last unplaced key v, with the first i keys unplaced. */
  predicate ClassSlots(count: seq<int>, keys: seq<int>, i: nat)
    requires i <= |keys|
  {
    |count| == |keys| && forall v :: 0 <= v < |count| ==> count[v] == CountBelow(v, keys) + Count(v, keys[..i])
  }

  lemma ClassTallyStep(count: seq<int>, keys: seq<int>, i: nat)
    requires i < |keys| && ClassTallied(count, keys, i) && 0 <= keys[i] < |count|
    ensures ClassTallied(count[keys[i] := count[keys[i]] + 1], keys, i + 1)
  {
    forall v | 0 <= v < |count|
      ensures Count(v, keys[..i + 1]) == Count(v, keys[..i]) + (if keys[i] == v then 1 else 0)
    {
      CountPrefixStep(v, keys, i);
    }
  }

  lemma ClassTalliedSummed(count: seq<int>, keys: seq<int>)
    requires 0 < |keys| && ClassTallied(count, keys, |keys|)
    requires forall p :: 0 <= p < |keys| ==> 0 <= keys[p]
    ensures ClassSummed(count, keys, 1)
  {
    assert keys[..|keys|] == keys;
    CountBelowNext(0, keys);
    CountBelowNone(0, keys);
  }

  lemma ClassSumStep(count: seq<int>, keys: seq<int>, j: nat)
    requires 0 < j < |count| && ClassSummed(count, keys, j)
    ensures ClassSummed(count[j := count[j] + count[j - 1]], keys, j + 1)
  {
    CountBelowNext(j, keys);
  }

  /** The totals over klass are the totals over klass read through a permutation. */
  lemma ClassSummedSlots(count: seq<int>, klass: seq<int>, perm: seq<int>)
    requires ClassSummed(count, klass, |klass|) && IsPermutation(perm, |klass|)
    ensures ClassSlots(count, Permuted(klass, perm), |klass|)
  {
    var keys := Permuted(klass, perm);
    assert keys[..|keys|] == keys;
    forall v | 0 <= v < |count|
      ensures count[v] == CountBelow(v, keys) + Count(v, keys)
    {
      PermutedCountBelow(klass, perm, v + 1);
      CountBelowNext(v, keys);
    }
  }

  /** The placement loop of sort_doubled with the first i entries still to place. */
  predicate Placing(count: seq<int>, keys: seq<int>, vals: seq<int>, out: seq<int>, i: nat)
    requires i <= |keys|
  {
    ClassSlots(count, keys, i) && Placed(out, keys, vals, i)
  }

  lemma PlacingStep(count: seq<int>, keys: seq<int>, vals: seq<int>, out: seq<int>, i: nat)
    requires i < |keys| && 0 <= keys[i] < |count| && Placing(count, keys, vals, out, i + 1)
    ensures count[keys[i]] - 1 == Dest(keys, i)
    ensures Placing(count[keys[i] := count[keys[i]] - 1], keys, vals, out[count[keys[i]] - 1 := vals[i]], i)
  {
    ClassSlotStep(count, keys, i);
    PlaceStep(out, keys, vals, i);
  }

  lemma ClassSlotStep(count: seq<int>, keys: seq<int>, i: nat)
    requires i < |keys| && 0 <= keys[i] < |count| && ClassSlots(count, keys, i + 1)
    ensures ClassSlots(count[keys[i] := count[keys[i]] - 1], keys, i)
    ensures count[keys[i]] - 1 == Dest(keys, i)
  {
    forall v | 0 <= v < |count|
      ensures Count(v, keys[..i + 1]) == Count(v, keys[..i]) + (if keys[i] == v then 1 else 0)
    {
      CountPrefixStep(v, keys, i);
    }
  }

  /** The first two passes of sort_doubled: count the classes, then accumulate the counts. */
  method ClassTotals(klass: seq<int>) returns (count: seq<int>)
    requires forall p :: 0 <= p < |klass| ==> 0 <= klass[p] < |klass|
    ensures ClassSummed(count, klass, |klass|)
  {
    var dim := |klass|;
    count := seq(dim, _ => 0);
    var i := 0;
    while i < dim
      invariant 0 <= i <= dim && ClassTallied(count, klass, i)
    {
      ClassTallyStep(count, klass, i);
      count := count[klass[i] := count[klass[i]] + 1];
      i := i + 1;
    }
    if dim > 0 {
      ClassTalliedSummed(count, klass);
    }
    var j := 1;
    while j < dim
      invariant 1 <= j && |count| == dim && (dim == 0 || (j <= dim && ClassSummed(count, klass, j)))
    {
      ClassSumStep(count, klass, j);
      count := count[j := count[j] + count[j - 1]];
      j := j + 1;
    }
  }

  /**
   * Counting sort of the positions shifted back by length, keyed by the class
   * of the shifted position; positions with equal class keep their order in
   * `order`.
   */
  method SortDoubled(text: string, length: int, order: seq<int>, klass: seq<int>) returns (newOrder: seq<int>)
    requires IsPermutation(order, |text|) && |klass| == |text| && 0 <= length <= |text|
    requires forall p :: 0 <= p < |text| ==> 0 <= klass[p] < |text|
    ensures IsPermutation(Shift(order, length), |text|)
    ensures StableSortOf(Permuted(klass, Shift(order, length)), Shift(order, length), newOrder)
  {
    var count := ClassTotals(klass);
    ShiftPermutation(order, length);
    ClassSummedSlots(count, klass, Shift(order, length));
    newOrder := PlaceShifted(order, length, klass, count);
  }

  /** The last pass of sort_doubled: walk order backwards, dropping each shifted position into its slot. */
  method PlaceShifted(order: seq<int>, length: int, klass: seq<int>, count0: seq<int>) returns (newOrder: seq<int>)
    requires |klass| == |order| && IsPermutation(Shift(order, length), |order|)
    requires forall p :: 0 <= p < |order| ==> 0 <= klass[p] < |order|
    requires ClassSlots(count0, Permuted(klass, Shift(order, length)), |order|)
    ensures StableSortOf(Permuted(klass, Shift(order, length)), Shift(order, length), newOrder)
  {
    var dim := |order|;
    var count := count0;
    newOrder := seq(dim, _ => 0);
    ghost var shifted := Shift(order, length);
    ghost var keys := Permuted(klass, shifted);
    assert |shifted| == dim && |keys| == dim;
    var i := dim;
    while i > 0
      invariant 0 <= i <= dim && |count| == dim && |newOrder| == dim
      invariant Placing(count, keys, shifted, newOrder, i)
    {
      i := i - 1;
      var start := (order[i] - length + dim) % dim;
      assert start == shifted[i];
      var kl := klass[start];
      assert kl == keys[i];
      PlacingStep(count, keys, shifted, newOrder, i);
      count := count[kl := count[kl] - 1];
      newOrder := newOrder[count[kl] := start];
    }
  }

  /** A doubled substring is ordered by its first half's class, then by its second half. */
  lemma DoubledPair(t: string, L: nat, klass: seq<int>, p: int, q: int, p2: int, q2: int)
    requires 0 < |t| && L <= |t| && ClassInv(t, L, klass) && 0 <= p < |t| && 0 <= q < |t|
    requires p2 == Ahead(p, L, |t|) && q2 == Ahead(q, L, |t|)
    requires klass[p] < klass[q] || (klass[p] == klass[q] && InOrder(t, L, p2, q2))
    ensures InOrder(t, 2 * L, p, q)
  {
    assert ClassPair(t, L, klass, p, q);
    CycSplit(t, p, L);
    CycSplit(t, q, L);
    LessConcat(Cyc(t, p, L), Cyc(t, q, L), Cyc(t, p2, L), Cyc(t, q2, L));
  }

  /** sort_doubled turns an order by length-L substrings into one by length-2L substrings. */
  lemma DoubledSorted(t: string, L: nat, order: seq<int>, klass: seq<int>, newOrder: seq<int>)
    requires 0 < |t| && L <= |t| && ClassInv(t, L, klass) && SortedBy(t, L, order)
    requires IsPermutation(Shift(order, L), |t|)
    requires StableSortOf(Permuted(klass, Shift(order, L)), Shift(order, L), newOrder)
    ensures SortedBy(t, 2 * L, newOrder)
  {
    var n := |t|;
    assert |order| == n;
    var s := Shift(order, L);
    var keys := Permuted(klass, s);
    StableSortPermutation(keys, s, newOrder);
    forall a, b | 0 <= a < b < |t|
      ensures InOrder(t, 2 * L, newOrder[a], newOrder[b])
    {
      var ja := DestOnto(keys, a);
      var jb := DestOnto(keys, b);
      DestInverseOrder(keys, ja, jb);
      var p, q := s[ja], s[jb];
      ShiftBack(order, L, ja);
      ShiftBack(order, L, jb);
      assert keys[ja] == klass[p] && keys[jb] == klass[q];
      if keys[ja] == keys[jb] {
        assert InOrder(t, L, order[ja], order[jb]);
      }
      DoubledPair(t, L, klass, p, q, order[ja], order[jb]);
    }
  }

  // ---------------------------------------------------------------------------
  // update_classes
  // ---------------------------------------------------------------------------

  /** The class pair of p, the classes of p and of p + L, differs from that of q. */
  predicate PairDiffers(klass: seq<int>, L: int, p: int, q: int)
    requires 0 <= p < |klass| && 0 <= q < |klass|
  {
    klass[p] != klass[q] || klass[(p + L) % |klass|] != klass[(q + L) % |klass|]
  }

  /** Along new_order the new classes start at 0 and go up by one exactly where the class pair changes. */
  method UpdateClasses(newOrder: seq<int>, klass: seq<int>, length: int) returns (newClass: seq<int>)
    requires IsPermutation(newOrder, |newOrder|) && |klass| == |newOrder|
    ensures |newClass| == |newOrder|
    ensures |newOrder| > 0 ==> newClass[newOrder[0]] == 0
    ensures forall i :: 0 < i < |newOrder| ==>
              newClass[newOrder[i]] == newClass[newOrder[i - 1]] + (if PairDiffers(klass, length, newOrder[i], newOrder[i - 1]) then 1 else 0)
  {
    var n := |newOrder|;
    newClass := seq(n, _ => 0);
    ghost var diff := seq(n, k requires 0 <= k < n => 0 < k && PairDiffers(klass, length, newOrder[k], newOrder[k - 1]));
    var i := 1;
    while i < n
      invariant (n == 0 || 1 <= i <= n) && StepsUpTo(newOrder, newClass, diff, if n == 0 then 0 else i)
    {
      assert diff[i] == PairDiffers(klass, length, newOrder[i], newOrder[i - 1]);
      newClass := ClassAt(newOrder, klass, length, newClass, diff, i);
      i := i + 1;
    }
    PairStepsDone(newOrder, klass, length, newClass, diff);
  }

  /** One round of update_classes: the class of new_order[i] from that of new_order[i - 1]. */
  method ClassAt(newOrder: seq<int>, klass: seq<int>, length: int, newClass: seq<int>, ghost diff: seq<bool>, i: nat)
    returns (c: seq<int>)
    requires IsPermutation(newOrder, |newOrder|) && |klass| == |newOrder| && 0 < i < |newOrder|
    requires StepsUpTo(newOrder, newClass, diff, i)
    requires diff[i] == PairDiffers(klass, length, newOrder[i], newOrder[i - 1])
    ensures StepsUpTo(newOrder, c, diff, i + 1)
  {
    var n := |newOrder|;
    var current := newOrder[i];
    var previous := newOrder[i - 1];
    var middle := (current + length) % n;
    var midPrev := (previous + length) % n;
    StepWrite(newOrder, newClass, diff, i);
    if klass[current] != klass[previous] || klass[middle] != klass[midPrev] {
      c := newClass[current := newClass[previous] + 1];
    } else {
      c := newClass[current := newClass[previous]];
    }
  }

  lemma PairStepsDone(newOrder: seq<int>, klass: seq<int>, length: int, newClass: seq<int>, diff: seq<bool>)
    requires IsPermutation(newOrder, |newOrder|) && |klass| == |newOrder|
    requires StepsUpTo(newOrder, newClass, diff, |newOrder|)
    requires forall k :: 0 < k < |newOrder| ==> diff[k] == PairDiffers(klass, length, newOrder[k], newOrder[k - 1])
    ensures forall i :: 0 < i < |newOrder| ==>
              newClass[newOrder[i]] == newClass[newOrder[i - 1]] + (if PairDiffers(klass, length, newOrder[i], newOrder[i - 1]) then 1 else 0)
  {
  }

  /** Under a ClassInv for length L, the class pairs tell the length-2L substrings apart. */
  lemma PairDiffersMeaning(t: string, L: nat, klass: seq<int>, p: int, q: int)
    requires 0 < |t| && L <= |t| && ClassInv(t, L, klass) && 0 <= p < |t| && 0 <= q < |t|
    ensures PairDiffers(klass, L, p, q) <==> Cyc(t, p, 2 * L) != Cyc(t, q, 2 * L)
  {
    var n := |t|;
    CycSplit(t, p, L);
    CycSplit(t, q, L);
    Mod2(p + L, n);
    Mod2(q + L, n);
    var a, b := Cyc(t, p, L), Cyc(t, Ahead(p, L, n), L);
    var c, d := Cyc(t, q, L), Cyc(t, Ahead(q, L, n), L);
    assert ClassPair(t, L, klass, p, q);
    assert ClassPair(t, L, klass, Ahead(p, L, n), Ahead(q, L, n));
    if a + b == c + d {
      assert (a + b)[..L] == a && (c + d)[..L] == c;
      assert (a + b)[L..] == b && (c + d)[L..] == d;
    }
  }

  /** update_classes turns the length-2L order into a ClassInv for length 2L. */
  lemma DoubledClasses(t: string, L: nat, newOrder: seq<int>, klass: seq<int>, newClass: seq<int>)
    requires 0 < |t| && L <= |t| && ClassInv(t, L, klass) && SortedBy(t, 2 * L, newOrder)
    requires |newClass| == |t| && newClass[newOrder[0]] == 0
    requires forall i :: 0 < i < |t| ==>
               newClass[newOrder[i]] == newClass[newOrder[i - 1]] + (if PairDiffers(klass, L, newOrder[i], newOrder[i - 1]) then 1 else 0)
    ensures ClassInv(t, 2 * L, newClass)
  {
    var n := |t|;
    var w := seq(n, k requires 0 <= k < n => Cyc(t, newOrder[k], 2 * L));
    forall i | 0 < i < n
      ensures PairDiffers(klass, L, newOrder[i], newOrder[i - 1]) == (w[i] != w[i - 1])
    {
      PairDiffersMeaning(t, L, klass, newOrder[i], newOrder[i - 1]);
    }
    StepsClassInv(t, 2 * L, newOrder, newClass);
  }

  /** Once L covers the text, the first |t| characters of the cyclic substring are the rotation. */
  lemma CycRotation(t: string, p: int, L: nat)
    requires 0 <= p < |t| <= L
    ensures Cyc(t, p, L)[..|t|] == Rotation(t, p)
  {
    var n := |t|;
    var c, r := Cyc(t, p, L)[..n], Rotation(t, p);
    forall k | 0 <= k < n
      ensures c[k] == r[k]
    {
      Mod2(p + k, n);
    }
  }

  /** Sorted by cyclic substrings at least as long as the text means sorted by rotation. */
  lemma SortedRotations(t: string, L: nat, order: seq<int>)
    requires 0 < |t| <= L && SortedBy(t, L, order)
    ensures RotationsSorted(t, order)
  {
    forall a, b | 0 <= a < b < |t|
      ensures LessEq(Rotation(t, order[a]), Rotation(t, order[b]))
    {
      assert InOrder(t, L, order[a], order[b]);
      LessEqPrefix(Cyc(t, order[a], L), Cyc(t, order[b], L), |t|);
      CycRotation(t, order[a], L);
      CycRotation(t, order[b], L);
    }
  }

  /**
   * The while loop of build_suffix_array: re-sort by doubled length and
   * reclassify until the sorted length reaches the text length.
   */
  method DoublingRounds(text: string, order0: seq<int>, klass0: seq<int>) returns (order: seq<int>)
    requires IsPermutation(order0, |text|)
    requires |text| > 0 ==> SortedBy(text, 1, order0) && ClassInv(text, 1, klass0)
    ensures RotationsSorted(text, order)
  {
    order := order0;
    var klass := klass0;
    var length := 1;
    while length < |text|
      invariant 1 <= length && IsPermutation(order, |text|)
      invariant |text| > 0 ==> SortedBy(text, length, order) && ClassInv(text, length, klass)
      decreases |text| - length
    {
      var newOrder := SortDoubled(text, length, order, klass);
      DoubledSorted(text, length, order, klass, newOrder);
      var newClass := UpdateClasses(newOrder, klass, length);
      DoubledClasses(text, length, newOrder, klass, newClass);
      order, klass, length := newOrder, newClass, length * 2;
    }
    if |text| > 0 {
      SortedRotations(text, length, order);
    }
  }
}
