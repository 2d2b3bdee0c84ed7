/**
 * Matching with a trie whose nodes carry an `"end"` flag
 * (week_1/trie_matching_extended.py): the flag marks the nodes that spell a
 * whole pattern, so a pattern that is a prefix of another is still found.
 * The matcher stops at the first flagged node; `solve` drops duplicates
 * and sorts.
 */
module TrieMatchingExtended {
  import opened StringSpec
  import opened Sorting
  import opened Trie
  import opened TrieMatching

  /** Each node has edges and an `"end"` entry; `ends[v]` holds the entry of node v. */
  predicate EndsOf(ends: seq<bool>, paths: seq<string>, done: seq<string>)
  {
    |ends| == |paths| && forall v :: 0 <= v < |ends| ==> (ends[v] <==> paths[v] in done)
  }

  /** Walking s from the root ends at a flagged node. */
  predicate EndAt(trie: Edges, ends: seq<bool>, s: string)
  {
    Walk(trie, 0, s).Some? && Walk(trie, 0, s).value < |ends| && ends[Walk(trie, 0, s).value]
  }

  /** Some prefix of text[x:] walks to a flagged node. */
  predicate PatternAt(trie: Edges, ends: seq<bool>, text: string, x: int)
    requires 0 <= x <= |text|
  {
    exists k :: 0 <= k <= |text| - x && EndAt(trie, ends, text[x..][..k])
  }

  /** Every pattern is among its node strings. */
  lemma PatternsAreNodeStrings(done: seq<string>)
    ensures forall p :: p in done ==> p in NodeStrings(done)
  {
    forall p | p in done
      ensures p in NodeStrings(done)
    {
      NodeStringsAre(done, p);
      var j :| 0 <= j < |done| && done[j] == p;
      assert IsPrefix(p, done[j]);
    }
  }

  /** A new child gets no flag: its string is no pattern seen so far. */
  lemma AddUnflaggedChild(trie: Edges, ends: seq<bool>, paths: seq<string>, done: seq<string>, current: int, symbol: char)
    requires TrieOf(trie, paths) && EndsOf(ends, paths, done) && NodeStrings(done) <= Strings(paths)
    requires 0 <= current < |trie| && symbol !in trie[current]
    ensures EndsOf(ends + [false], paths + [paths[current] + [symbol]], done)
  {
    NewStringFresh(trie, paths, current, symbol);
    PatternsAreNodeStrings(done);
  }

  /** Flagging the node that spells the pattern just inserted. */
  lemma FlagPattern(trie: Edges, ends: seq<bool>, paths: seq<string>, done: seq<string>, current: int, pattern: string)
    requires TrieOf(trie, paths) && EndsOf(ends, paths, done) && 0 <= current < |trie| && paths[current] == pattern
    ensures EndsOf(ends[current := true], paths, done + [pattern])
  {
    assert forall v :: 0 <= v < |trie| && v != current ==> paths[v] != pattern;
  }

  /** The inner loop of `_build_trie` and the flag it sets on the node the pattern ends at. */
  method InsertFlaggedPattern(trie0: Edges, ends0: seq<bool>, ghost paths0: seq<string>, ghost done: seq<string>, pattern: string, newLabel0: int)
    returns (trie: Edges, ends: seq<bool>, ghost paths: seq<string>, newLabel: int)
    requires TrieOf(trie0, paths0) && newLabel0 == |trie0|
    requires EndsOf(ends0, paths0, done) && Strings(paths0) == NodeStrings(done)
    ensures TrieOf(trie, paths) && newLabel == |trie|
    ensures Strings(paths) == Strings(paths0) + PrefixesOf(pattern)
    ensures EndsOf(ends, paths, done + [pattern])
  {
    trie, ends, paths, newLabel := trie0, ends0, paths0, newLabel0;
    var current := 0;
    assert pattern[..0][..0] == [];
    assert PrefixesOf(pattern[..0]) == {[]};
    assert paths[0] in Strings(paths);
    for k := 0 to |pattern|
      invariant TrieOf(trie, paths) && newLabel == |trie| && 0 <= current < |trie| && paths[current] == pattern[..k]
      invariant Strings(paths) == Strings(paths0) + PrefixesOf(pattern[..k])
      invariant EndsOf(ends, paths, done)
    {
      var symbol := pattern[k];
      PrefixesStep(pattern, k);
      assert pattern[..k + 1] == pattern[..k] + [symbol];
      if symbol in trie[current] {
        current := trie[current][symbol];
        assert paths[current] in Strings(paths);
      } else {
        AddChild(trie, paths, current, symbol);
        AddUnflaggedChild(trie, ends, paths, done, current, symbol);
        trie := trie[current := trie[current][symbol := newLabel]] + [map[]];
        ends := ends + [false];
        paths := paths + [pattern[..k + 1]];
        current := newLabel;
        newLabel := newLabel + 1;
      }
    }
    assert pattern[..|pattern|] == pattern;
    FlagPattern(trie, ends, paths, done, current, pattern);
    ends := ends[current := true];
  }

  /** `_build_trie` with `"end"` flags. */
  method BuildFlaggedTrie(patterns: seq<string>) returns (trie: Edges, ends: seq<bool>, ghost paths: seq<string>)
    ensures TrieOf(trie, paths) && Strings(paths) == NodeStrings(patterns) && EndsOf(ends, paths, patterns)
  {
    trie := [map[]];
    ends := [false];
    paths := [[]];
    var newLabel := 1;
    assert paths[0] == [];
    assert Strings(paths) == {[]};
    for j := 0 to |patterns|
      invariant TrieOf(trie, paths) && newLabel == |trie|
      invariant Strings(paths) == NodeStrings(patterns[..j]) && EndsOf(ends, paths, patterns[..j])
    {
      trie, ends, paths, newLabel := InsertFlaggedPattern(trie, ends, paths, patterns[..j], patterns[j], newLabel);
      PatternDone(patterns, j);
      assert patterns[j][..|patterns[j]|] == patterns[j];
      assert patterns[..j] + [patterns[j]] == patterns[..j + 1];
    }
    assert patterns[..|patterns|] == patterns;
  }

  /** In the flagged trie of the patterns, the strings that walk to a flagged node are the patterns. */
  lemma EndsArePatterns(patterns: seq<string>, trie: Edges, ends: seq<bool>, paths: seq<string>, s: string)
    requires TrieOf(trie, paths) && Strings(paths) == NodeStrings(patterns) && EndsOf(ends, paths, patterns)
    ensures EndAt(trie, ends, s) <==> s in patterns
  {
    WalkSpells(trie, paths, s);
    if s in patterns {
      PatternsAreNodeStrings(patterns);
    }
  }

  /**
   * `_prefix_trie_matching` of the extended matcher: the shortest prefix of
   * text that walks to a flagged node, or None if there is none.
   */
  method FlaggedPrefixMatching(text: string, trie: Edges, ends: seq<bool>) returns (r: Option<string>)
    requires |text| > 0 && |trie| > 0 && |ends| == |trie| && ChildrenAfter(trie)
    ensures r.Some? ==> IsPrefix(r.value, text) && EndAt(trie, ends, r.value)
    ensures r.Some? ==> forall k :: 0 <= k < |r.value| ==> !EndAt(trie, ends, text[..k])
    ensures r.None? ==> forall k :: 0 <= k <= |text| ==> !EndAt(trie, ends, text[..k])
  {
    var v := 0;
    var i := 0;
    var symbol: Option<char> := Some(text[i]);
    var pattern: string := [];
    while true
      invariant 0 <= i <= |text| && pattern == text[..i]
      invariant symbol == if i < |text| then Some(text[i]) else None
      invariant Walk(trie, 0, pattern) == Some(v)
      invariant forall k :: 0 <= k < i ==> !EndAt(trie, ends, text[..k])
      decreases |text| - i
    {
      if ends[v] {
        return Some(pattern);
      } else if symbol.Some? && symbol.value in trie[v] && trie[v][symbol.value] != 0 {
        WalkSnoc(trie, pattern, symbol.value);
        assert text[..i + 1] == pattern + [symbol.value];
        pattern := pattern + [symbol.value];
        v := trie[v][symbol.value];
        i := i + 1;
        symbol := if i < |text| then Some(text[i]) else None;
      } else {
        WalkStops(trie, text, i, v);
        return None;
      }
    }
  }

  /** `trie_matching` of the extended matcher: the starts where some prefix reaches a flagged node, increasing. */
  method FlaggedTrieMatching(text: string, trie: Edges, ends: seq<bool>) returns (positions: seq<int>)
    requires |trie| > 0 && |ends| == |trie| && ChildrenAfter(trie)
    ensures forall a, b :: 0 <= a < b < |positions| ==> positions[a] < positions[b]
    ensures forall x :: x in positions <==> 0 <= x < |text| && PatternAt(trie, ends, text, x)
  {
    positions := [];
    for i := 0 to |text|
      invariant forall a, b :: 0 <= a < b < |positions| ==> positions[a] < positions[b]
      invariant forall k :: 0 <= k < |positions| ==> positions[k] < i
      invariant forall x :: x in positions <==> 0 <= x < i && PatternAt(trie, ends, text, x)
    {
      var result := FlaggedPrefixMatching(text[i..], trie, ends);
      if result.Some? {
        assert text[i..][..|result.value|] == result.value;
        positions := positions + [i];
      }
    }
  }

  /** The strings that walk to a flagged node are exactly the patterns. */
  ghost predicate EndsSpell(trie: Edges, ends: seq<bool>, patterns: seq<string>)
  {
    forall s :: EndAt(trie, ends, s) <==> s in patterns
  }

  /** With the flagged trie of the patterns, a start is reported exactly where some pattern occurs. */
  lemma FlaggedMatchIsOccurrence(patterns: seq<string>, trie: Edges, ends: seq<bool>, text: string, x: int)
    requires EndsSpell(trie, ends, patterns) && 0 <= x < |text|
    ensures PatternAt(trie, ends, text, x) <==> exists j :: 0 <= j < |patterns| && OccursAt(patterns[j], text, x)
  {
    if PatternAt(trie, ends, text, x) {
      var k :| 0 <= k <= |text| - x && EndAt(trie, ends, text[x..][..k]);
      var j :| 0 <= j < |patterns| && patterns[j] == text[x..][..k];
      assert text[x..x + k] == text[x..][..k];
      assert OccursAt(patterns[j], text, x);
    }
    if exists j :: 0 <= j < |patterns| && OccursAt(patterns[j], text, x) {
      var j :| 0 <= j < |patterns| && OccursAt(patterns[j], text, x);
      var k := |patterns[j]|;
      assert text[x..][..k] == text[x..x + k];
      assert EndAt(trie, ends, text[x..][..k]);
    }
  }

  /** The flagged matcher on the flagged trie of the patterns reports the starts of their occurrences. */
  lemma FlaggedMatchesAreOccurrences(patterns: seq<string>, trie: Edges, ends: seq<bool>, paths: seq<string>, text: string)
    requires TrieOf(trie, paths) && Strings(paths) == NodeStrings(patterns) && EndsOf(ends, paths, patterns)
    ensures forall x :: 0 <= x < |text| ==>
      (PatternAt(trie, ends, text, x) <==> exists j :: 0 <= j < |patterns| && OccursAt(patterns[j], text, x))
  {
    forall s
      ensures EndAt(trie, ends, s) <==> s in patterns
    {
      EndsArePatterns(patterns, trie, ends, paths, s);
    }
    forall x | 0 <= x < |text|
      ensures PatternAt(trie, ends, text, x) <==> exists j :: 0 <= j < |patterns| && OccursAt(patterns[j], text, x)
    {
      FlaggedMatchIsOccurrence(patterns, trie, ends, text, x);
    }
  }

  /** Some element of a non-empty set. */
  method Pick(s: set<int>) returns (x: int)
    requires s != {}
    ensures x in s
  {
    if forall y :: y !in s {
      assert false;
    }
    x :| x in s;
  }

  /** Python's `list(set(xs))`: the distinct values, in an order the language leaves open. */
  method ListOfSet(s: set<int>) returns (l: seq<int>)
    ensures Distinct(l) && forall x :: x in l <==> x in s
  {
    l := [];
    var rest := s;
    while rest != {}
      invariant Distinct(l)
      invariant forall y :: y in s <==> y in l || y in rest
      invariant forall y :: y in l ==> y !in rest
      decreases |rest|
    {
      var x := Pick(rest);
      l := l + [x];
      rest := rest - {x};
    }
  }

  /** Sorting a list without repetitions gives a strictly increasing list of the same values. */
  method SortUnique(unique: seq<int>) returns (result: seq<int>)
    requires Distinct(unique)
    ensures forall a, b :: 0 <= a < b < |result| ==> result[a] < result[b]
    ensures forall x :: x in result <==> x in unique
  {
    IntLeTotal();
    result := Sort(unique, IntLe);
    DistinctRearrangement(result, unique);
    assert forall x :: x in result <==> x in multiset(unique);
  }

  /**
   * `solve` of the extended matcher: flagged trie, match, drop duplicates,
   * sort.  The result is the increasing list of positions where some
   * pattern occurs, whatever the patterns.
   */
  method SolveFlagged(text: string, patterns: seq<string>) returns (result: seq<int>)
    ensures forall a, b :: 0 <= a < b < |result| ==> result[a] < result[b]
    ensures forall x :: x in result <==> 0 <= x < |text| && exists j :: 0 <= j < |patterns| && OccursAt(patterns[j], text, x)
  {
    var tree, ends;
    ghost var paths;
    tree, ends, paths := BuildFlaggedTrie(patterns);
    var positions := FlaggedTrieMatching(text, tree, ends);
    var unique := ListOfSet(set x | x in positions);
    result := SortUnique(unique);
    FlaggedMatchesAreOccurrences(patterns, tree, ends, paths, text);
  }
}
