/**
 * build_suffix_array by prefix doubling, in its three copies: over the fixed
 * alphabet "$ACGT", over an alphabet given by the caller, and the copy that
 * drops the first entry.  The result orders the cyclic rotations; for a text
 * ending in a unique smallest '$' that is the suffix array.
 */
module SuffixArray {
  import opened StringSpec
  import opened CharacterSort
  import opened PrefixDoubling

  /** t ends in '$' and every other character is greater than '$'. */
  predicate Terminated(t: string)
  {
    |t| > 0 && t[|t| - 1] == '$' && forall i :: 0 <= i < |t| - 1 ==> '$' < t[i]
  }

  /** In a '$'-terminated text no suffix is a proper prefix of another, so rotations compare like suffixes. */
  lemma SuffixOrderDecided(t: string, p: nat, q: nat)
    requires Terminated(t) && p < |t| && q < |t| && Less(Suffix(t, p), Suffix(t, q))
    ensures Less(Rotation(t, p), Rotation(t, q))
  {
    var n := |t|;
    var sp, sq := Suffix(t, p), Suffix(t, q);
    var k := LessImpliesDifference(sp, sq);
    var rp, rq := Rotation(t, p), Rotation(t, q);
    assert rp[..k] == sp[..k] && rq[..k] == sq[..k];
    LessAtDifference(rp, rq, k);
  }

  lemma RotationVsSuffix(t: string, p: nat, q: nat)
    requires Terminated(t) && p < |t| && q < |t| && p != q
    ensures LessEq(Rotation(t, p), Rotation(t, q)) <==> Less(Suffix(t, p), Suffix(t, q))
  {
    var sp, sq := Suffix(t, p), Suffix(t, q);
    assert |sp| != |sq|;
    LessTotal(sp, sq);
    if Less(sp, sq) {
      SuffixOrderDecided(t, p, q);
    } else {
      SuffixOrderDecided(t, q, p);
      LessAsymmetric(Rotation(t, q), Rotation(t, p));
      LessIrreflexive(Rotation(t, p));
    }
  }

  /** Sorting the rotations of a '$'-terminated text sorts its suffixes. */
  lemma TerminatedSuffixArray(t: string, sa: seq<int>)
    requires Terminated(t) && RotationsSorted(t, sa)
    ensures IsSuffixArray(t, sa)
  {
    forall a, b | 0 <= a < b < |t|
      ensures Less(Suffix(t, sa[a]), Suffix(t, sa[b]))
    {
      RotationVsSuffix(t, sa[a], sa[b]);
    }
  }

  /** The fast builders and the naive one agree on '$'-terminated text. */
  lemma BuildersAgree(t: string, fast: seq<int>, naive: seq<int>)
    requires Terminated(t) && RotationsSorted(t, fast) && IsSuffixArray(t, naive)
    ensures fast == naive
  {
    TerminatedSuffixArray(t, fast);
    SuffixArrayUnique(t, fast, naive);
  }

  /** In a '$'-terminated text the suffix "$" comes first. */
  lemma DollarFirst(t: string, sa: seq<int>)
    requires Terminated(t) && IsSuffixArray(t, sa)
    ensures sa[0] == |t| - 1
  {
    var n := |t|;
    var c := PermutationCovers(sa, n, n - 1);
  }

  /** `build_suffix_array` over the fixed alphabet `"$ACGT"`. */
  method BuildSuffixArray(text: string) returns (order: seq<int>)
    requires Over(text, ALPHABET)
    ensures RotationsSorted(text, order)
    ensures |text| == 1 ==> order == [0]
    ensures Terminated(text) ==> IsSuffixArray(text, order)
  {
    order := SortCharacters(text);
    StableCharSortMeaning(text, order);
    var klass := ComputeCharClasses(text, order);
    if |text| > 0 {
      CharClassesRank(text, order, klass);
    }
    order := DoublingRounds(text, order, klass);
    if Terminated(text) {
      TerminatedSuffixArray(text, order);
    }
  }

  /** `build_suffix_array(text, alphabet)`, with the dictionary-keyed character sort. */
  method BuildSuffixArrayOver(alphabet: string, text: string) returns (order: seq<int>)
    requires StrictlyIncreasing(alphabet) && Over(text, alphabet)
    ensures RotationsSorted(text, order)
    ensures |text| == 1 ==> order == [0]
    ensures Terminated(text) ==> IsSuffixArray(text, order)
  {
    order := SortCharactersByDict(alphabet, text);
    StableCharSortMeaning(text, order);
    var klass := ComputeCharClasses(text, order);
    if |text| > 0 {
      CharClassesRank(text, order, klass);
    }
    order := DoublingRounds(text, order, klass);
    if Terminated(text) {
      TerminatedSuffixArray(text, order);
    }
  }

  /** The copy that returns `order[1:]`, leaving out the rotation that starts with the final '$'. */
  method BuildSuffixArrayTail(alphabet: string, text: string) returns (sa: seq<int>)
    requires StrictlyIncreasing(alphabet) && Over(text, alphabet)
    ensures |text| == 0 ==> sa == []
    ensures |text| > 0 ==> |sa| == |text| - 1 && exists first :: RotationsSorted(text, [first] + sa)
    ensures Terminated(text) ==> IsSuffixArray(text, [|text| - 1] + sa)
  {
    var order := BuildSuffixArrayOver(alphabet, text);
    sa := if |order| == 0 then [] else order[1..];
    if |text| > 0 {
      assert order == [order[0]] + sa;
      if Terminated(text) {
        DollarFirst(text, order);
      }
    }
  }
}
