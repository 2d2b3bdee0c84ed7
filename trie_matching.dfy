/**
 * Matching with the trie of the patterns (week_1/trie_matching.py): walk the
 * trie along text[i:] until a leaf is reached (a match) or an edge is
 * missing, for every start i; `solve` then sorts the positions.
 */
module TrieMatching {
  import opened StringSpec
  import opened Sorting
  import opened Trie

  /** Walking s from the root ends at a node without edges: Python's `not v`. */
  predicate LeafAt(trie: Edges, s: string)
  {
    Walk(trie, 0, s).Some? && trie[Walk(trie, 0, s).value] == map[]
  }

  /** Some prefix of text[x:] walks to a leaf. */
  predicate MatchesAt(trie: Edges, text: string, x: int)
    requires 0 <= x <= |text|
  {
    exists k :: 0 <= k <= |text| - x && LeafAt(trie, text[x..][..k])
  }

  /** A leaf has no edges, so at most one prefix of a string walks to a leaf. */
  lemma LeafPrefixUnique(trie: Edges, text: string, a: int, b: int)
    requires 0 <= a <= b <= |text| && LeafAt(trie, text[..a]) && LeafAt(trie, text[..b])
    ensures a == b
  {
    if a < b {
      assert text[..b] == text[..a] + text[a..b];
      WalkConcat(trie, 0, text[..a], text[a..b]);
    }
  }

  /** Once the walk has stopped at an inner node, no longer prefix reaches a leaf either. */
  lemma NoLeafBeyond(trie: Edges, text: string, i: int, v: int)
    requires ChildrenAfter(trie) && 0 <= i <= |text| && Walk(trie, 0, text[..i]) == Some(v)
    requires trie[v] != map[] && (i == |text| || text[i] !in trie[v])
    ensures forall k :: i <= k <= |text| ==> !LeafAt(trie, text[..k])
  {
    WalkStops(trie, text, i, v);
  }

  /**
   * `_prefix_trie_matching`: the prefix of text spelled on the way from the
   * root to a leaf, or None once the next symbol (None past the end) has no
   * edge.  Python's `v` is the edge dict of the current node; here it is the
   * node's label.  The edge test `v.get(symbol, None)` is a truthiness test
   * on the child's label.
   */
  method PrefixTrieMatching(text: string, trie: Edges) returns (r: Option<string>)
    requires |text| > 0 && |trie| > 0 && ChildrenAfter(trie)
    ensures r.Some? ==> IsPrefix(r.value, text) && LeafAt(trie, r.value)
    ensures r.None? ==> forall k :: 0 <= k <= |text| ==> !LeafAt(trie, text[..k])
  {
    var v := 0;
    var i := 0;
    var symbol: Option<char> := Some(text[i]);
    var pattern: string := [];
    while true
      invariant 0 <= i <= |text| && pattern == text[..i]
      invariant symbol == if i < |text| then Some(text[i]) else None
      invariant Walk(trie, 0, pattern) == Some(v)
      invariant forall k :: 0 <= k < i ==> !LeafAt(trie, text[..k])
      decreases |text| - i
    {
      if trie[v] == map[] {
        return Some(pattern);
      } else if symbol.Some? && symbol.value in trie[v] && trie[v][symbol.value] != 0 {
        WalkSnoc(trie, pattern, symbol.value);
        assert text[..i + 1] == pattern + [symbol.value];
        pattern := pattern + [symbol.value];
        v := trie[v][symbol.value];
        i := i + 1;
        symbol := if i < |text| then Some(text[i]) else None;
      } else {
        NoLeafBeyond(trie, text, i, v);
        return None;
      }
    }
  }

  /** `trie_matching`: every start from which a prefix of the text walks to a leaf, in increasing order. */
  method TrieMatchingPositions(text: string, trie: Edges) returns (positions: seq<int>)
    requires |trie| > 0 && ChildrenAfter(trie)
    ensures forall a, b :: 0 <= a < b < |positions| ==> positions[a] < positions[b]
    ensures forall x :: x in positions <==> 0 <= x < |text| && MatchesAt(trie, text, x)
  {
    positions := [];
    for i := 0 to |text|
      invariant forall a, b :: 0 <= a < b < |positions| ==> positions[a] < positions[b]
      invariant forall k :: 0 <= k < |positions| ==> positions[k] < i
      invariant forall x :: x in positions <==> 0 <= x < i && MatchesAt(trie, text, x)
    {
      var result := PrefixTrieMatching(text[i..], trie);
      if result.Some? {
        assert text[i..][..|result.value|] == result.value;
        positions := positions + [i];
      }
    }
  }

  /** No pattern is a proper prefix of another: the condition under which every pattern ends at a leaf. */
  predicate PrefixFree(patterns: seq<string>)
  {
    forall a, b :: 0 <= a < |patterns| && 0 <= b < |patterns| && |patterns[a]| < |patterns[b]| ==>
      patterns[b][..|patterns[a]|] != patterns[a]
  }

  /** An edge below the node of s means that s is a proper prefix of some pattern. */
  lemma EdgeMeansLonger(patterns: seq<string>, trie: Edges, paths: seq<string>, s: string, c: char)
    requires TrieOf(trie, paths) && Strings(paths) == NodeStrings(patterns)
    requires Walk(trie, 0, s).Some? && c in trie[Walk(trie, 0, s).value]
    ensures exists b :: 0 <= b < |patterns| && |s| < |patterns[b]| && patterns[b][..|s|] == s
  {
    BuiltWalk(patterns, trie, paths, s + [c]);
    WalkSnoc(trie, s, c);
    var b :| 0 <= b < |patterns| && IsPrefix(s + [c], patterns[b]);
    assert patterns[b][..|s|] == patterns[b][..|s| + 1][..|s|];
  }

  /** A leaf spells the whole of every pattern it is a prefix of. */
  lemma LeafIsPattern(patterns: seq<string>, trie: Edges, paths: seq<string>, s: string, j: int)
    requires TrieOf(trie, paths) && Strings(paths) == NodeStrings(patterns)
    requires 0 <= j < |patterns| && LeafAt(trie, s) && IsPrefix(s, patterns[j])
    ensures s == patterns[j]
  {
    var q := patterns[j];
    if |s| < |q| {
      var c := q[|s|];
      assert q[..|s| + 1] == s + [c];
      assert IsPrefix(s + [c], q);
      BuiltWalk(patterns, trie, paths, s + [c]);
      WalkSnoc(trie, s, c);
    }
  }

  /** For a prefix-free, non-empty list, the strings that walk to a leaf of its trie are the patterns. */
  lemma LeavesArePatterns(patterns: seq<string>, trie: Edges, paths: seq<string>, s: string)
    requires TrieOf(trie, paths) && Strings(paths) == NodeStrings(patterns)
    requires |patterns| > 0 && PrefixFree(patterns)
    ensures LeafAt(trie, s) <==> s in patterns
  {
    BuiltWalk(patterns, trie, paths, s);
    if LeafAt(trie, s) {
      var j := if s == [] then 0 else var j :| 0 <= j < |patterns| && IsPrefix(s, patterns[j]); j;
      LeafIsPattern(patterns, trie, paths, s, j);
    }
    if s in patterns {
      var j :| 0 <= j < |patterns| && patterns[j] == s;
      assert IsPrefix(s, patterns[j]);
      var v := Walk(trie, 0, s).value;
      if trie[v] != map[] {
        var c :| c in trie[v];
        EdgeMeansLonger(patterns, trie, paths, s, c);
      }
    }
  }

  /** The strings that walk to a leaf are exactly the patterns. */
  ghost predicate LeavesSpell(trie: Edges, patterns: seq<string>)
  {
    forall s :: LeafAt(trie, s) <==> s in patterns
  }

  /** Hence a start matches exactly where some pattern occurs. */
  lemma MatchIsOccurrence(patterns: seq<string>, trie: Edges, text: string, x: int)
    requires LeavesSpell(trie, patterns) && 0 <= x < |text|
    ensures MatchesAt(trie, text, x) <==> exists j :: 0 <= j < |patterns| && OccursAt(patterns[j], text, x)
  {
    if MatchesAt(trie, text, x) {
      var k :| 0 <= k <= |text| - x && LeafAt(trie, text[x..][..k]);
      var j :| 0 <= j < |patterns| && patterns[j] == text[x..][..k];
      assert text[x..x + k] == text[x..][..k];
      assert OccursAt(patterns[j], text, x);
    }
    if exists j :: 0 <= j < |patterns| && OccursAt(patterns[j], text, x) {
      var j :| 0 <= j < |patterns| && OccursAt(patterns[j], text, x);
      var k := |patterns[j]|;
      assert text[x..][..k] == text[x..x + k];
      assert LeafAt(trie, text[x..][..k]);
    }
  }

  /** The matcher reports the starts of the pattern occurrences. */
  lemma MatchesAreOccurrences(patterns: seq<string>, trie: Edges, paths: seq<string>, text: string)
    requires TrieOf(trie, paths) && Strings(paths) == NodeStrings(patterns)
    requires |patterns| > 0 && PrefixFree(patterns)
    ensures forall x :: 0 <= x < |text| ==>
      (MatchesAt(trie, text, x) <==> exists j :: 0 <= j < |patterns| && OccursAt(patterns[j], text, x))
  {
    forall s
      ensures LeafAt(trie, s) <==> s in patterns
    {
      LeavesArePatterns(patterns, trie, paths, s);
    }
    forall x | 0 <= x < |text|
      ensures MatchesAt(trie, text, x) <==> exists j :: 0 <= j < |patterns| && OccursAt(patterns[j], text, x)
    {
      MatchIsOccurrence(patterns, trie, text, x);
    }
  }

  /** Python's `<=` on ints. */
  function IntLe(a: int, b: int): bool
  {
    a <= b
  }

  lemma IntLeTotal()
    ensures TotalPreorder(IntLe)
  {
  }

  /** Sorting an increasing list leaves it as it is. */
  lemma {:induction false} SortIncreasing(s: seq<int>)
    requires TotalPreorder(IntLe)
    requires forall a, b :: 0 <= a < b < |s| ==> s[a] < s[b]
    ensures Sort(s, IntLe) == s
    decreases |s|
  {
    if |s| > 0 {
      SortIncreasing(s[1..]);
      assert [s[0]] + s[1..] == s;
    }
  }

  /**
   * `solve`: build the trie, match, sort.  For a non-empty, prefix-free list
   * of patterns the result is the increasing list of positions where some
   * pattern occurs.
   */
  method Solve(text: string, patterns: seq<string>) returns (result: seq<int>)
    ensures forall a, b :: 0 <= a < b < |result| ==> result[a] < result[b]
    ensures |patterns| > 0 && PrefixFree(patterns) ==>
      forall x :: x in result <==> 0 <= x < |text| && exists j :: 0 <= j < |patterns| && OccursAt(patterns[j], text, x)
  {
    var tree;
    ghost var paths;
    tree, paths := BuildTrie(patterns);
    result := TrieMatchingPositions(text, tree);
    IntLeTotal();
    SortIncreasing(result);
    result := Sort(result, IntLe);
    if |patterns| > 0 && PrefixFree(patterns) {
      MatchesAreOccurrences(patterns, tree, paths, text);
    }
  }
}
