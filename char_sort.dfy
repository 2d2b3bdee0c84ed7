/**
 * The first step of the prefix-doubling suffix array: a stable counting sort
 * of the positions of a text by their character, once with a count list over
 * the fixed alphabet and once with a count dict over a given sorted alphabet.
 */
module CharacterSort {
  import opened StringSpec
  import opened CountingSort

  /** The fixed alphabet that indexes the count list. */
  const ALPHABET: string := "$ACGT"

  predicate StrictlyIncreasing(alphabet: string)
  {
    forall i, j :: 0 <= i < j < |alphabet| ==> alphabet[i] < alphabet[j]
  }

  /** Every character of text has an entry in the alphabet (otherwise the source raises KeyError). */
  predicate Over(text: string, alphabet: string)
  {
    forall i :: 0 <= i < |text| ==> text[i] in alphabet
  }

  /** Position of c in the alphabet, the value of `alphabet_indices[c]`. */
  function IndexOf(alphabet: string, c: char): (r: nat)
    requires c in alphabet
    ensures r < |alphabet| && alphabet[r] == c
  {
    if alphabet[0] == c then 0 else 1 + IndexOf(alphabet[1..], c)
  }

  /** Occurrences in keys of the first j alphabet letters: a prefix sum of the count table. */
  function SumCounts(alphabet: string, j: nat, keys: seq<int>): nat
    requires j <= |alphabet|
  {
    if j == 0 then 0 else SumCounts(alphabet, j - 1, keys) + Count(alphabet[j - 1] as int, keys)
  }

  /** In a duplicate-free alphabet, letter m is among the first j letters iff m < j. */
  lemma InAlphabetPrefix(alphabet: string, j: nat, m: nat)
    requires j <= |alphabet| && m < |alphabet|
    requires forall a, b :: 0 <= a < b < |alphabet| ==> alphabet[a] != alphabet[b]
    ensures alphabet[m] as int in Codes(alphabet[..j]) <==> m < j
  {
    if m < j {
      assert Codes(alphabet[..j])[m] == alphabet[m] as int;
    }
    forall a | 0 <= a < j
      ensures Codes(alphabet[..j])[a] == alphabet[m] as int ==> a == m
    {
    }
  }

  lemma {:induction false} SumCountsSnoc(alphabet: string, j: nat, keys: seq<int>, m: nat)
    requires j <= |alphabet| && m < |alphabet|
    requires forall a, b :: 0 <= a < b < |alphabet| ==> alphabet[a] != alphabet[b]
    ensures SumCounts(alphabet, j, keys + [alphabet[m] as int])
         == SumCounts(alphabet, j, keys) + (if m < j then 1 else 0)
    decreases j
  {
    if j > 0 {
      SumCountsSnoc(alphabet, j - 1, keys, m);
      CountAppend(alphabet[j - 1] as int, keys, [alphabet[m] as int]);
      assert alphabet[j - 1] as int == alphabet[m] as int <==> m == j - 1;
    }
  }

  /** With a sorted alphabet covering every key, prefix sums count the smaller keys. */
  lemma {:induction false} SumCountsBelow(alphabet: string, j: nat, keys: seq<int>)
    requires StrictlyIncreasing(alphabet) && j <= |alphabet|
    requires forall i :: 0 <= i < |keys| ==> keys[i] in Codes(alphabet)
    ensures j < |alphabet| ==> SumCounts(alphabet, j, keys) == CountBelow(alphabet[j] as int, keys)
    ensures j == |alphabet| ==> SumCounts(alphabet, j, keys) == |keys|
    decreases |keys|
  {
    if |keys| > 0 {
      var keys', x := keys[..|keys| - 1], keys[|keys| - 1];
      assert keys == keys' + [x];
      SumCountsBelow(alphabet, j, keys');
      var m :| 0 <= m < |alphabet| && Codes(alphabet)[m] == x;
      SumCountsSnoc(alphabet, j, keys', m);
      assert j < |alphabet| ==> (m < j <==> x < alphabet[j] as int);
    } else {
      SumCountsEmpty(alphabet, j, keys);
    }
  }

  lemma {:induction false} SumCountsEmpty(alphabet: string, j: nat, keys: seq<int>)
    requires j <= |alphabet| && |keys| == 0
    ensures SumCounts(alphabet, j, keys) == 0
    decreases j
  {
    if j > 0 {
      SumCountsEmpty(alphabet, j - 1, keys);
    }
  }

  /**
   * order is the stable counting sort of the positions of text: position j is
   * placed at its slot Dest, after all smaller characters and after the
   * earlier copies of its own character.
   */
  predicate StableCharSort(text: string, order: seq<int>)
  {
    |order| == |text| && forall j :: 0 <= j < |text| ==> order[Dest(Codes(text), j)] == j
  }

  /** What a stable character sort promises: a permutation, sorted by character, ties by position. */
  lemma StableCharSortMeaning(text: string, order: seq<int>)
    requires StableCharSort(text, order)
    ensures IsPermutation(order, |text|)
    ensures forall a, b :: 0 <= a < b < |text| ==> text[order[a]] <= text[order[b]]
    ensures forall a, b :: 0 <= a < b < |text| && text[order[a]] == text[order[b]] ==> order[a] < order[b]
  {
    var codes := Codes(text);
    forall q | 0 <= q < |text|
      ensures 0 <= order[q] < |text| && Dest(codes, order[q]) == q
    {
      var j := DestOnto(codes, q);
    }
    forall a, b | 0 <= a < b < |text|
      ensures order[a] != order[b]
      ensures text[order[a]] <= text[order[b]]
      ensures text[order[a]] == text[order[b]] ==> order[a] < order[b]
    {
      DestInverseOrder(codes, order[a], order[b]);
    }
  }

  /** The stable sort is unique, so every method meeting StableCharSort returns the same order. */
  lemma StableCharSortUnique(text: string, o1: seq<int>, o2: seq<int>)
    requires StableCharSort(text, o1) && StableCharSort(text, o2)
    ensures o1 == o2
  {
    forall q | 0 <= q < |text|
      ensures o1[q] == o2[q]
    {
      var j := DestOnto(Codes(text), q);
    }
  }

  /** count[k] holds the occurrences of letter k among the first i keys. */
  predicate Tallied(alphabet: string, count: seq<int>, keys: seq<int>, i: nat)
    requires i <= |keys|
  {
    |count| == |alphabet| && forall k :: 0 <= k < |alphabet| ==> count[k] == Count(alphabet[k] as int, keys[..i])
  }

  /** The first j entries of count are prefix sums, the others still plain counts. */
  predicate PartlySummed(alphabet: string, count: seq<int>, keys: seq<int>, j: nat)
  {
    |count| == |alphabet| && j <= |alphabet|
    && (forall k :: 0 <= k < j ==> count[k] == SumCounts(alphabet, k + 1, keys))
    && (forall k :: j <= k < |alphabet| ==> count[k] == Count(alphabet[k] as int, keys))
  }

  /** count[k] is one past the slot of the last unplaced copy of letter k, with the first i keys unplaced. */
  predicate Slots(alphabet: string, count: seq<int>, keys: seq<int>, i: nat)
    requires i <= |keys|
  {
    |count| == |alphabet|
    && forall k :: 0 <= k < |alphabet| ==> count[k] == CountBelow(alphabet[k] as int, keys) + Count(alphabet[k] as int, keys[..i])
  }

  lemma TallyStep(alphabet: string, count: seq<int>, keys: seq<int>, i: nat, idx: nat)
    requires Distinct(alphabet) && i < |keys| && idx < |alphabet| && keys[i] == alphabet[idx] as int
    requires Tallied(alphabet, count, keys, i)
    ensures Tallied(alphabet, count[idx := count[idx] + 1], keys, i + 1)
  {
    forall k | 0 <= k < |alphabet|
      ensures Count(alphabet[k] as int, keys[..i + 1]) == Count(alphabet[k] as int, keys[..i]) + (if k == idx then 1 else 0)
    {
      CountPrefixStep(alphabet[k] as int, keys, i);
    }
  }

  lemma SumStep(alphabet: string, count: seq<int>, keys: seq<int>, j: nat)
    requires 0 < j < |alphabet| && PartlySummed(alphabet, count, keys, j)
    ensures PartlySummed(alphabet, count[j := count[j] + count[j - 1]], keys, j + 1)
  {
  }

  lemma SummedSlots(alphabet: string, count: seq<int>, keys: seq<int>)
    requires StrictlyIncreasing(alphabet) && 0 < |alphabet|
    requires forall i :: 0 <= i < |keys| ==> keys[i] in Codes(alphabet)
    requires PartlySummed(alphabet, count, keys, |alphabet|)
    ensures Slots(alphabet, count, keys, |keys|)
  {
    assert keys[..|keys|] == keys;
    forall k | 0 <= k < |alphabet|
      ensures count[k] == CountBelow(alphabet[k] as int, keys) + Count(alphabet[k] as int, keys)
    {
      SumCountsBelow(alphabet, k, keys);
    }
  }

  lemma SlotStep(alphabet: string, count: seq<int>, keys: seq<int>, i: nat, idx: nat)
    requires Distinct(alphabet) && i < |keys| && idx < |alphabet| && keys[i] == alphabet[idx] as int
    requires Slots(alphabet, count, keys, i + 1)
    ensures Slots(alphabet, count[idx := count[idx] - 1], keys, i)
    ensures count[idx] - 1 == Dest(keys, i)
  {
    forall k | 0 <= k < |alphabet|
      ensures Count(alphabet[k] as int, keys[..i + 1]) == Count(alphabet[k] as int, keys[..i]) + (if k == idx then 1 else 0)
    {
      CountPrefixStep(alphabet[k] as int, keys, i);
    }
  }

  lemma KeysOver(text: string, alphabet: string)
    requires Over(text, alphabet)
    ensures forall i :: 0 <= i < |text| ==> Codes(text)[i] in Codes(alphabet)
  {
    forall i | 0 <= i < |text|
      ensures Codes(text)[i] in Codes(alphabet)
    {
      var m := IndexOf(alphabet, text[i]);
      assert Codes(alphabet)[m] == Codes(text)[i];
    }
  }

  lemma AlphabetFacts()
    ensures StrictlyIncreasing(ALPHABET) && Distinct(ALPHABET)
  {
  }

  /** First pass of the list-indexed sort: count each letter of text. */
  method TallyByList(text: string) returns (count: seq<int>)
    requires Over(text, ALPHABET)
    ensures Tallied(ALPHABET, count, Codes(text), |text|)
  {
    ghost var keys := Codes(text);
    AlphabetFacts();
    count := seq(|ALPHABET|, _ => 0);
    var i := 0;
    while i < |text|
      invariant 0 <= i <= |text|
      invariant Tallied(ALPHABET, count, keys, i)
    {
      var idx := IndexOf(ALPHABET, text[i]);
      TallyStep(ALPHABET, count, keys, i, idx);
      count := count[idx := count[idx] + 1];
      i := i + 1;
    }
  }

  /** Second pass: turn the letter counts into running totals in alphabet order. */
  method AccumulateByList(count0: seq<int>, ghost keys: seq<int>) returns (count: seq<int>)
    requires Tallied(ALPHABET, count0, keys, |keys|)
    ensures PartlySummed(ALPHABET, count, keys, |ALPHABET|)
  {
    count := count0;
    assert keys[..|keys|] == keys;
    var j := 1;
    while j < |ALPHABET|
      invariant 1 <= j <= |ALPHABET|
      invariant PartlySummed(ALPHABET, count, keys, j)
    {
      SumStep(ALPHABET, count, keys, j);
      count := count[j := count[j] + count[j - 1]];
      j := j + 1;
    }
  }

  /**
   * Counting sort of the positions of text by the rank of their character in
   * ALPHABET.  Its first two passes are TallyByList and AccumulateByList.
   */
  method SortCharacters(text: string) returns (order: seq<int>)
    requires Over(text, ALPHABET)
    ensures StableCharSort(text, order)
  {
    var dim := |text|;
    ghost var keys := Codes(text);
    AlphabetFacts();
    KeysOver(text, ALPHABET);
    ghost var ids := seq(dim, k => k);
    order := seq(dim, _ => 0);
    var count := TallyByList(text);
    count := AccumulateByList(count, keys);
    SummedSlots(ALPHABET, count, keys);
    var i := dim;
    while i > 0
      invariant 0 <= i <= dim
      invariant Slots(ALPHABET, count, keys, i)
      invariant Placed(order, keys, ids, i)
    {
      i := i - 1;
      var idx := IndexOf(ALPHABET, text[i]);
      SlotStep(ALPHABET, count, keys, i, idx);
      count := count[idx := count[idx] - 1];
      PlaceStep(order, keys, ids, i);
      order := order[count[idx] := i];
    }
  }

  /** The dict analogue of Tallied. */
  predicate TalliedMap(alphabet: string, count: map<char, int>, keys: seq<int>, i: nat)
    requires i <= |keys|
  {
    forall k :: 0 <= k < |alphabet| ==> alphabet[k] in count && count[alphabet[k]] == Count(alphabet[k] as int, keys[..i])
  }

  /** The dict analogue of PartlySummed. */
  predicate PartlySummedMap(alphabet: string, count: map<char, int>, keys: seq<int>, j: nat)
  {
    j <= |alphabet|
    && (forall k :: 0 <= k < |alphabet| ==> alphabet[k] in count)
    && (forall k :: 0 <= k < j ==> count[alphabet[k]] == SumCounts(alphabet, k + 1, keys))
    && (forall k :: j <= k < |alphabet| ==> count[alphabet[k]] == Count(alphabet[k] as int, keys))
  }

  /** The dict analogue of Slots. */
  predicate SlotsMap(alphabet: string, count: map<char, int>, keys: seq<int>, i: nat)
    requires i <= |keys|
  {
    forall k :: 0 <= k < |alphabet| ==>
      alphabet[k] in count && count[alphabet[k]] == CountBelow(alphabet[k] as int, keys) + Count(alphabet[k] as int, keys[..i])
  }

  lemma TallyStepMap(alphabet: string, count: map<char, int>, keys: seq<int>, i: nat, idx: nat, c: char)
    requires Distinct(alphabet) && i < |keys| && idx < |alphabet| && alphabet[idx] == c && keys[i] == c as int
    requires TalliedMap(alphabet, count, keys, i)
    ensures TalliedMap(alphabet, count[c := count[c] + 1], keys, i + 1)
  {
    forall k | 0 <= k < |alphabet|
      ensures Count(alphabet[k] as int, keys[..i + 1]) == Count(alphabet[k] as int, keys[..i]) + (if k == idx then 1 else 0)
    {
      CountPrefixStep(alphabet[k] as int, keys, i);
    }
  }

  lemma TalliedMapSummed(alphabet: string, count: map<char, int>, keys: seq<int>)
    requires 0 < |alphabet| && TalliedMap(alphabet, count, keys, |keys|)
    ensures PartlySummedMap(alphabet, count, keys, 1)
  {
    assert keys[..|keys|] == keys;
  }

  lemma SumStepMap(alphabet: string, count: map<char, int>, keys: seq<int>, j: nat)
    requires Distinct(alphabet) && 0 < j < |alphabet| && PartlySummedMap(alphabet, count, keys, j)
    ensures PartlySummedMap(alphabet, count[alphabet[j] := count[alphabet[j]] + count[alphabet[j - 1]]], keys, j + 1)
  {
  }

  lemma SummedSlotsMap(alphabet: string, count: map<char, int>, keys: seq<int>)
    requires StrictlyIncreasing(alphabet)
    requires forall i :: 0 <= i < |keys| ==> keys[i] in Codes(alphabet)
    requires PartlySummedMap(alphabet, count, keys, |alphabet|)
    ensures SlotsMap(alphabet, count, keys, |keys|)
  {
    assert keys[..|keys|] == keys;
    forall k | 0 <= k < |alphabet|
      ensures count[alphabet[k]] == CountBelow(alphabet[k] as int, keys) + Count(alphabet[k] as int, keys)
    {
      SumCountsBelow(alphabet, k, keys);
    }
  }

  lemma SlotStepMap(alphabet: string, count: map<char, int>, keys: seq<int>, i: nat, idx: nat, c: char)
    requires Distinct(alphabet) && i < |keys| && idx < |alphabet| && alphabet[idx] == c && keys[i] == c as int
    requires SlotsMap(alphabet, count, keys, i + 1)
    ensures SlotsMap(alphabet, count[c := count[c] - 1], keys, i)
    ensures count[c] - 1 == Dest(keys, i)
  {
    forall k | 0 <= k < |alphabet|
      ensures Count(alphabet[k] as int, keys[..i + 1]) == Count(alphabet[k] as int, keys[..i]) + (if k == idx then 1 else 0)
    {
      CountPrefixStep(alphabet[k] as int, keys, i);
    }
  }

  /** First pass of the dict-keyed sort: count each letter of text. */
  method TallyByDict(alphabet: string, text: string) returns (count: map<char, int>)
    requires Distinct(alphabet) && Over(text, alphabet)
    ensures TalliedMap(alphabet, count, Codes(text), |text|)
  {
    ghost var keys := Codes(text);
    count := map c | c in alphabet :: 0;
    var i := 0;
    while i < |text|
      invariant 0 <= i <= |text|
      invariant TalliedMap(alphabet, count, keys, i)
    {
      var c := text[i];
      var idx := IndexOf(alphabet, c);
      TallyStepMap(alphabet, count, keys, i, idx, c);
      count := count[c := count[c] + 1];
      i := i + 1;
    }
  }

  /** Second pass: turn the letter counts into running totals in alphabet order. */
  method AccumulateByDict(alphabet: string, count0: map<char, int>, ghost keys: seq<int>) returns (count: map<char, int>)
    requires Distinct(alphabet) && TalliedMap(alphabet, count0, keys, |keys|)
    ensures PartlySummedMap(alphabet, count, keys, |alphabet|)
  {
    count := count0;
    if |alphabet| > 0 {
      TalliedMapSummed(alphabet, count, keys);
    }
    var j := 1;
    while j < |alphabet|
      invariant 1 <= j
      invariant |alphabet| == 0 || PartlySummedMap(alphabet, count, keys, j)
    {
      SumStepMap(alphabet, count, keys, j);
      count := count[alphabet[j] := count[alphabet[j]] + count[alphabet[j - 1]]];
      j := j + 1;
    }
  }

  /**
   * The dict-keyed counting sort: the count table is a map from the letters of
   * alphabet, which must be sorted and duplicate-free as `sorted(set(text))` is.
   * Its first two passes are TallyByDict and AccumulateByDict.
   */
  method SortCharactersByDict(alphabet: string, text: string) returns (order: seq<int>)
    requires StrictlyIncreasing(alphabet) && Over(text, alphabet)
    ensures StableCharSort(text, order)
  {
    var dim := |text|;
    ghost var keys := Codes(text);
    KeysOver(text, alphabet);
    ghost var ids := seq(dim, k => k);
    order := seq(dim, _ => 0);
    var count := TallyByDict(alphabet, text);
    count := AccumulateByDict(alphabet, count, keys);
    SummedSlotsMap(alphabet, count, keys);
    var i := dim;
    while i > 0
      invariant 0 <= i <= dim
      invariant SlotsMap(alphabet, count, keys, i)
      invariant Placed(order, keys, ids, i)
    {
      i := i - 1;
      var c := text[i];
      var idx := IndexOf(alphabet, c);
      SlotStepMap(alphabet, count, keys, i, idx, c);
      PlaceStep(order, keys, ids, i);
      order := order[count[c] - 1 := i];
      count := count[c := count[c] - 1];
    }
  }
}
