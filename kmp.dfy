/**
 * Knuth-Morris-Pratt matching (weeks_3_4/kmp.py): the prefix function of a
 * string, filled left to right by following the chain of borders, and the
 * matcher that runs it on `pattern + '$' + text`.
 */
module KnuthMorrisPratt {
  import opened StringSpec

  /** b is the length of a proper border of text[..j]: text[..b] == text[j-b..j] with b < j. */
  predicate BorderAt(text: string, j: int, b: int)
    requires 0 <= j <= |text|
  {
    0 <= b < j && forall k :: 0 <= k < b ==> text[k] == text[j - b + k]
  }

  /** b is the longest proper border of text[..j]. */
  predicate LongestBorderAt(text: string, j: int, b: int)
    requires 0 <= j <= |text|
  {
    BorderAt(text, j, b) && forall c :: b < c < j ==> !BorderAt(text, j, c)
  }

  /** prefix[i] is the longest proper border of text[..i+1], for every i. */
  predicate IsPrefixFunction(text: string, prefix: seq<int>)
  {
    |prefix| == |text| && forall i :: 0 <= i < |text| ==> LongestBorderAt(text, i + 1, prefix[i])
  }

  /** The longest border is unique, so the prefix function is determined by the text. */
  lemma LongestBorderUnique(text: string, j: int, a: int, b: int)
    requires 0 <= j <= |text| && LongestBorderAt(text, j, a) && LongestBorderAt(text, j, b)
    ensures a == b
  {
  }

  /** The borders of text[..j] shorter than one of its borders b are the borders of text[..b]. */
  lemma BorderChain(text: string, j: int, b: int, c: int)
    requires 0 <= j <= |text| && BorderAt(text, j, b) && 0 <= c < b
    ensures BorderAt(text, j, c) <==> BorderAt(text, b, c)
  {
    if BorderAt(text, j, c) {
      forall k | 0 <= k < c
        ensures text[k] == text[b - c + k]
      {
        assert text[b - c + k] == text[j - b + (b - c + k)];
      }
    }
    if BorderAt(text, b, c) {
      forall k | 0 <= k < c
        ensures text[k] == text[j - c + k]
      {
        assert text[b - c + k] == text[j - b + (b - c + k)];
      }
    }
  }

  /** A border of text[..i+1] other than 0 is a border of text[..i] extended by text[i]. */
  lemma BorderShrinks(text: string, i: int, c: int)
    requires 0 <= i < |text| && BorderAt(text, i + 1, c) && c > 0
    ensures BorderAt(text, i, c - 1) && text[c - 1] == text[i]
  {
  }

  /** A border of text[..i] followed by text[i] is a border of text[..i+1]. */
  lemma BorderExtends(text: string, i: int, b: int)
    requires 0 <= i < |text| && BorderAt(text, i, b) && text[b] == text[i]
    ensures BorderAt(text, i + 1, b + 1)
  {
  }

  /** The state of the inner loop: `border` is a border of text[..i] and every longer one fails to extend. */
  predicate Candidate(text: string, i: int, border: int)
    requires 0 <= i < |text|
  {
    BorderAt(text, i, border) && forall c :: border < c < i && BorderAt(text, i, c) ==> text[c] != text[i]
  }

  /** Following `prefix[border - 1]` keeps the inner loop's state. */
  lemma FollowBorder(text: string, prefix: seq<int>, i: int, border: int)
    requires 0 <= i < |text| && |prefix| == |text| && Candidate(text, i, border)
    requires border > 0 && text[i] != text[border]
    requires forall j :: 0 <= j < i ==> LongestBorderAt(text, j + 1, prefix[j])
    ensures Candidate(text, i, prefix[border - 1]) && prefix[border - 1] < border
  {
    var next := prefix[border - 1];
    BorderChain(text, i, border, next);
    forall c | next < c < i && BorderAt(text, i, c)
      ensures text[c] != text[i]
    {
      if c < border {
        BorderChain(text, i, border, c);
      }
    }
  }

  /** When the inner loop stops, the new border is the longest border of text[..i+1]. */
  lemma SettleBorder(text: string, i: int, border: int)
    requires 0 <= i < |text| && Candidate(text, i, border)
    requires border == 0 || text[i] == text[border]
    ensures LongestBorderAt(text, i + 1, if text[i] == text[border] then border + 1 else 0)
  {
    var b := if text[i] == text[border] then border + 1 else 0;
    if text[i] == text[border] {
      BorderExtends(text, i, border);
    }
    forall c {:trigger BorderAt(text, i + 1, c)} | b < c < i + 1
      ensures !BorderAt(text, i + 1, c)
    {
      if BorderAt(text, i + 1, c) {
        BorderShrinks(text, i, c);
      }
    }
  }

  /** `compute_prefix_function`. */
  method ComputePrefixFunction(text: string) returns (prefix: seq<int>)
    ensures IsPrefixFunction(text, prefix)
  {
    var dim := |text|;
    prefix := seq(dim, _ => 0);
    var border := 0;
    var i := 1;
    while i < dim
      invariant 1 <= i && (dim == 0 || i <= dim) && |prefix| == dim
      invariant forall j :: 0 <= j < i && j < dim ==> LongestBorderAt(text, j + 1, prefix[j])
      invariant i < dim ==> border == prefix[i - 1]
    {
      while border > 0 && text[i] != text[border]
        invariant Candidate(text, i, border)
        decreases border
      {
        FollowBorder(text, prefix, i, border);
        border := prefix[border - 1];
      }
      SettleBorder(text, i, border);
      if text[i] == text[border] {
        border := border + 1;
      } else {
        border := 0;
      }
      prefix := prefix[i := border];
      i := i + 1;
    }
  }

  /** The bounds the prefix function keeps: prefix[0] == 0, prefix[i] <= i, and it grows by at most one per step. */
  lemma PrefixFunctionBounds(text: string, prefix: seq<int>)
    requires IsPrefixFunction(text, prefix)
    ensures |text| > 0 ==> prefix[0] == 0
    ensures forall i :: 0 <= i < |text| ==> 0 <= prefix[i] <= i
    ensures forall i :: 0 < i < |text| ==> prefix[i] <= prefix[i - 1] + 1
  {
    forall i | 0 < i < |text|
      ensures prefix[i] <= prefix[i - 1] + 1
    {
      if prefix[i] > 0 {
        BorderShrinks(text, i, prefix[i]);
      }
    }
  }

  /** A border of `pattern + '$' + text` longer than the pattern puts a '$' in text. */
  lemma LongBorderHasDollar(pattern: string, text: string, j: int, c: int)
    requires |pattern| < c < j <= |pattern + "$" + text| && BorderAt(pattern + "$" + text, j, c)
    ensures 0 <= j - c - 1 < |text| && text[j - c - 1] == '$'
  {
    var merged := pattern + "$" + text;
    assert merged[|pattern|] == merged[j - c + |pattern|];
  }

  /** A border of the pattern's length that ends before position 2m of the merged string covers the '$'. */
  lemma ShortWindowHasDollar(pattern: string, text: string, i: int)
    requires |pattern| + 1 <= i < 2 * |pattern| && i < |pattern + "$" + text| && BorderAt(pattern + "$" + text, i + 1, |pattern|)
    ensures 0 <= 2 * |pattern| - i - 1 < |pattern| && pattern[2 * |pattern| - i - 1] == '$'
  {
    var merged := pattern + "$" + text;
    var k := 2 * |pattern| - i - 1;
    assert merged[k] == merged[i + 1 - |pattern| + k];
  }

  /** For a '$'-free pattern every reported position `i - 2m` lies in [0, |text| - m]. */
  lemma MatchesInText(pattern: string, text: string, prefix: seq<int>)
    requires IsPrefixFunction(pattern + "$" + text, prefix) && '$' !in pattern
    ensures forall i :: |pattern| + 1 <= i < |prefix| && prefix[i] == |pattern| ==> 2 * |pattern| <= i
  {
    forall i | |pattern| + 1 <= i < |prefix| && prefix[i] == |pattern|
      ensures 2 * |pattern| <= i
    {
      if i < 2 * |pattern| {
        ShortWindowHasDollar(pattern, text, i);
      }
    }
  }

  /** With no '$' in pattern or text, prefix[x + 2m] == m exactly where the pattern occurs at x. */
  lemma MatchesAreOccurrences(pattern: string, text: string, prefix: seq<int>)
    requires IsPrefixFunction(pattern + "$" + text, prefix) && |pattern| > 0 && '$' !in pattern && '$' !in text
    ensures forall x ::
      (|pattern| + 1 <= x + 2 * |pattern| < |prefix| && prefix[x + 2 * |pattern|] == |pattern|) <==> OccursAt(pattern, text, x)
  {
    var merged := pattern + "$" + text;
    var m := |pattern|;
    MatchesInText(pattern, text, prefix);
    forall x
      ensures (m + 1 <= x + 2 * m < |prefix| && prefix[x + 2 * m] == m) <==> OccursAt(pattern, text, x)
    {
      var i := x + 2 * m;
      if m + 1 <= i < |prefix| && prefix[i] == m {
        forall k | 0 <= k < m
          ensures text[x..x + m][k] == pattern[k]
        {
          assert merged[k] == merged[i + 1 - m + k];
        }
        assert text[x..x + m] == pattern;
      }
      if OccursAt(pattern, text, x) {
        assert forall k :: 0 <= k < m ==> merged[k] == merged[i + 1 - m + k];
        assert BorderAt(merged, i + 1, m);
        if prefix[i] > m {
          LongBorderHasDollar(pattern, text, i + 1, prefix[i]);
        }
      }
    }
  }

  /**
   * `find_pattern`: the positions `i - 2m` where the prefix function of
   * `pattern + '$' + text` reaches the pattern length m, in increasing order.
   */
  method FindPattern(pattern: string, text: string) returns (result: seq<int>)
    ensures forall a, b :: 0 <= a < b < |result| ==> result[a] < result[b]
    ensures '$' !in pattern ==> forall k :: 0 <= k < |result| ==> 0 <= result[k] <= |text| - |pattern|
    ensures |pattern| > 0 && '$' !in pattern && '$' !in text ==> forall x :: x in result <==> OccursAt(pattern, text, x)
  {
    result := [];
    var merged := pattern + "$" + text;
    var prefix := ComputePrefixFunction(merged);
    var m := |pattern|;
    for i := m + 1 to |merged|
      invariant forall a, b :: 0 <= a < b < |result| ==> result[a] < result[b]
      invariant forall k :: 0 <= k < |result| ==> result[k] < i - 2 * m
      invariant forall x :: x in result <==> m + 1 <= x + 2 * m < i && prefix[x + 2 * m] == m
    {
      if prefix[i] == m {
        result := result + [i - 2 * m];
      }
    }
    if '$' !in pattern {
      MatchesInText(pattern, text, prefix);
      assert forall k :: 0 <= k < |result| ==> result[k] in result;
    }
    if |pattern| > 0 && '$' !in pattern && '$' !in text {
      MatchesAreOccurrences(pattern, text, prefix);
    }
  }
}
