/**
 * The trie of a list of patterns (week_1/trie.py `build_trie`, copied as
 * `_build_trie` in week_1/trie_matching.py).  The source keeps a dict from
 * node labels to dicts of edges; the labels it hands out are 0, 1, 2, ... in
 * order, so the outer dict is a sequence indexed by label here and each
 * node's edges are a `map<char, int>` from symbol to child label.
 */
module Trie {
  import opened StringSpec

  /** Node label v |-> the edges leaving v, symbol |-> child label. */
  type Edges = seq<map<char, int>>

  /** The node reached from v by following the symbols of s, None once an edge is missing. */
  function Walk(trie: Edges, v: int, s: string): (r: Option<int>)
    ensures r.Some? ==> 0 <= r.value < |trie|
    ensures |s| == 0 ==> (r.Some? <==> 0 <= v < |trie|)
    decreases |s|
  {
    if !(0 <= v < |trie|) then None
    else if |s| == 0 then Some(v)
    else if s[0] in trie[v] then Walk(trie, trie[v][s[0]], s[1..])
    else None
  }

  /** Every child label is a node, created after its parent. */
  predicate ChildrenAfter(trie: Edges)
  {
    forall v, c :: 0 <= v < |trie| && c in trie[v] ==> v < trie[v][c] < |trie|
  }

  /** Node w other than the root hangs below a node spelling paths[w] without its last symbol. */
  predicate HasParent(trie: Edges, paths: seq<string>, w: int)
    requires 0 < w < |trie| == |paths|
  {
    |paths[w]| > 0 && exists v :: 0 <= v < w && paths[w][|paths[w]| - 1] in trie[v] && trie[v][paths[w][|paths[w]| - 1]] == w
  }

  /**
   * paths[v] is the string spelled from the root to v: the root spells "",
   * an edge c from v leads to a node spelling paths[v] + [c], every other
   * node has a parent, and no two nodes spell the same string.
   */
  predicate TrieOf(trie: Edges, paths: seq<string>)
  {
    |paths| == |trie| > 0 && paths[0] == [] && ChildrenAfter(trie)
    && (forall v, c :: 0 <= v < |trie| && c in trie[v] ==> paths[trie[v][c]] == paths[v] + [c])
    && (forall w :: 0 < w < |trie| ==> HasParent(trie, paths, w))
    && Distinct(paths)
  }

  /** The strings the nodes spell. */
  function Strings(paths: seq<string>): set<string>
  {
    set w | 0 <= w < |paths| :: paths[w]
  }

  /** The prefixes p[..k] of p, "" and p included. */
  function PrefixesOf(p: string): set<string>
    decreases |p|
  {
    if |p| == 0 then {[]} else PrefixesOf(p[..|p| - 1]) + {p}
  }

  /** "" and every prefix of every pattern: the strings a trie of the patterns spells. */
  function NodeStrings(patterns: seq<string>): set<string>
    decreases |patterns|
  {
    if |patterns| == 0 then {[]}
    else NodeStrings(patterns[..|patterns| - 1]) + PrefixesOf(patterns[|patterns| - 1])
  }

  /** s is p or a prefix of p. */
  predicate IsPrefix(s: string, p: string)
  {
    |s| <= |p| && p[..|s|] == s
  }

  /** PrefixesOf(p) holds exactly the prefixes of p. */
  lemma {:induction false} PrefixesOfAre(p: string, s: string)
    ensures s in PrefixesOf(p) <==> IsPrefix(s, p)
    decreases |p|
  {
    if |p| > 0 {
      var front := p[..|p| - 1];
      PrefixesOfAre(front, s);
      if IsPrefix(s, p) && |s| < |p| {
        assert front[..|s|] == p[..|s|];
      }
      if IsPrefix(s, front) {
        assert p[..|s|] == front[..|s|];
      }
      assert p[..|p|] == p;
    }
  }

  /** The strings a trie of the patterns spells are "" and the prefixes of the patterns. */
  lemma {:induction false} NodeStringsAre(patterns: seq<string>, s: string)
    ensures s in NodeStrings(patterns) <==> s == [] || exists j :: 0 <= j < |patterns| && IsPrefix(s, patterns[j])
    decreases |patterns|
  {
    if |patterns| > 0 {
      var front := patterns[..|patterns| - 1];
      var last := patterns[|patterns| - 1];
      NodeStringsAre(front, s);
      assert forall j :: 0 <= j < |front| ==> front[j] == patterns[j];
      PrefixesOfAre(last, s);
    }
  }

  /** Walking s then t is walking s + t. */
  lemma {:induction false} WalkConcat(trie: Edges, v: int, s: string, t: string)
    ensures Walk(trie, v, s + t) == if Walk(trie, v, s).Some? then Walk(trie, Walk(trie, v, s).value, t) else None
    decreases |s|
  {
    if |s| == 0 {
      assert s + t == t;
    } else if 0 <= v < |trie| {
      assert (s + t)[0] == s[0] && (s + t)[1..] == s[1..] + t;
      if s[0] in trie[v] {
        WalkConcat(trie, trie[v][s[0]], s[1..], t);
      }
    }
  }

  /** Walking one symbol further. */
  lemma WalkSnoc(trie: Edges, s: string, c: char)
    requires ChildrenAfter(trie)
    ensures Walk(trie, 0, s + [c]) ==
      if Walk(trie, 0, s).Some? && c in trie[Walk(trie, 0, s).value] then Some(trie[Walk(trie, 0, s).value][c]) else None
  {
    WalkConcat(trie, 0, s, [c]);
    if Walk(trie, 0, s).Some? {
      var v := Walk(trie, 0, s).value;
      if c in trie[v] {
        assert [c][1..] == [];
      }
    }
  }

  /** A walk that has stopped at a missing edge (or at the end of text) reaches no longer prefix. */
  lemma WalkStops(trie: Edges, text: string, i: int, v: int)
    requires ChildrenAfter(trie) && 0 <= i <= |text| && Walk(trie, 0, text[..i]) == Some(v)
    requires i == |text| || text[i] !in trie[v]
    ensures forall k :: i < k <= |text| ==> Walk(trie, 0, text[..k]).None?
  {
    forall k | i < k <= |text|
      ensures Walk(trie, 0, text[..k]).None?
    {
      assert text[..i + 1] == text[..i] + [text[i]];
      WalkSnoc(trie, text[..i], text[i]);
      assert text[..k] == text[..i + 1] + text[i + 1..k];
      WalkConcat(trie, 0, text[..i + 1], text[i + 1..k]);
    }
  }

  /** In a trie with its paths, walking s from the root reaches exactly the node that spells s. */
  lemma {:induction false} WalkSpells(trie: Edges, paths: seq<string>, s: string)
    requires TrieOf(trie, paths)
    ensures Walk(trie, 0, s).Some? <==> s in Strings(paths)
    ensures Walk(trie, 0, s).Some? ==> paths[Walk(trie, 0, s).value] == s
    decreases |s|
  {
    if |s| > 0 {
      var front, c := s[..|s| - 1], s[|s| - 1];
      assert s == front + [c];
      WalkSpells(trie, paths, front);
      WalkSnoc(trie, front, c);
      if s in Strings(paths) {
        var w :| 0 <= w < |paths| && paths[w] == s;
        assert w != 0;
        assert HasParent(trie, paths, w);
        var v :| 0 <= v < w && c in trie[v] && trie[v][c] == w;
        assert paths[v] == front;
        assert front in Strings(paths);
        var u := Walk(trie, 0, front).value;
        assert paths[u] == paths[v];
      }
    }
  }

  /** A node other than the root has exactly one incoming edge. */
  lemma OneParent(trie: Edges, paths: seq<string>, w: int, v1: int, c1: char, v2: int, c2: char)
    requires TrieOf(trie, paths) && 0 <= v1 < |trie| && 0 <= v2 < |trie|
    requires c1 in trie[v1] && trie[v1][c1] == w && c2 in trie[v2] && trie[v2][c2] == w
    ensures v1 == v2 && c1 == c2
  {
    assert paths[v1] + [c1] == paths[v2] + [c2];
    assert c1 == (paths[v1] + [c1])[|paths[v1]|];
    assert paths[v1] == (paths[v1] + [c1])[..|paths[v1]|];
  }

  /** The parent of a node other than the root spells its string without the last symbol. */
  lemma ParentOf(trie: Edges, paths: seq<string>, w: int) returns (v: int)
    requires TrieOf(trie, paths) && 0 < w < |trie|
    ensures 0 <= v < w && |paths[w]| > 0 && paths[v] == paths[w][..|paths[w]| - 1]
    ensures paths[w][|paths[w]| - 1] in trie[v] && trie[v][paths[w][|paths[w]| - 1]] == w
  {
    assert HasParent(trie, paths, w);
    var c := paths[w][|paths[w]| - 1];
    v :| 0 <= v < w && c in trie[v] && trie[v][c] == w;
    assert paths[w] == paths[v] + [c];
  }

  /** The string a new child would spell is not spelled yet. */
  lemma NewStringFresh(trie: Edges, paths: seq<string>, current: int, symbol: char)
    requires TrieOf(trie, paths) && 0 <= current < |trie| && symbol !in trie[current]
    ensures paths[current] + [symbol] !in Strings(paths)
  {
    var s := paths[current] + [symbol];
    assert s[..|s| - 1] == paths[current];
    forall w | 0 <= w < |paths|
      ensures paths[w] != s
    {
      if w != 0 {
        var v := ParentOf(trie, paths, w);
      }
    }
  }

  /** After adding the child every node but the root still has its parent. */
  lemma ParentsKept(trie: Edges, paths: seq<string>, current: int, symbol: char, trie': Edges, paths': seq<string>)
    requires TrieOf(trie, paths) && 0 <= current < |trie| && symbol !in trie[current]
    requires trie' == trie[current := trie[current][symbol := |trie|]] + [map[]] && paths' == paths + [paths[current] + [symbol]]
    ensures forall w :: 0 < w < |trie'| ==> HasParent(trie', paths', w)
  {
    forall w | 0 < w < |trie'|
      ensures HasParent(trie', paths', w)
    {
      if w < |trie| {
        assert HasParent(trie, paths, w);
        var v :| 0 <= v < w && paths[w][|paths[w]| - 1] in trie[v] && trie[v][paths[w][|paths[w]| - 1]] == w;
        assert trie'[v][paths[w][|paths[w]| - 1]] == w;
      } else {
        assert paths'[w][|paths'[w]| - 1] == symbol;
        assert trie'[current][symbol] == w;
      }
    }
  }

  /** `new_node_label` becomes the child of `current` under the symbol, with no edges of its own. */
  lemma AddChild(trie: Edges, paths: seq<string>, current: int, symbol: char)
    requires TrieOf(trie, paths) && 0 <= current < |trie| && symbol !in trie[current]
    ensures TrieOf(trie[current := trie[current][symbol := |trie|]] + [map[]], paths + [paths[current] + [symbol]])
    ensures Strings(paths + [paths[current] + [symbol]]) == Strings(paths) + {paths[current] + [symbol]}
  {
    var trie', paths' := trie[current := trie[current][symbol := |trie|]] + [map[]], paths + [paths[current] + [symbol]];
    var s := paths[current] + [symbol];
    NewStringFresh(trie, paths, current, symbol);
    ParentsKept(trie, paths, current, symbol, trie', paths');
    assert forall w :: 0 <= w < |paths| ==> paths'[w] == paths[w];
    assert paths'[|paths|] == s;
    assert Distinct(paths') by {
      assert forall w :: 0 <= w < |paths| ==> paths[w] in Strings(paths);
    }
  }

  /** One more symbol of the current pattern adds only its next prefix. */
  lemma PrefixesStep(p: string, k: int)
    requires 0 <= k < |p|
    ensures PrefixesOf(p[..k + 1]) == PrefixesOf(p[..k]) + {p[..k + 1]}
  {
    assert p[..k + 1][..k] == p[..k];
  }

  /** A pattern once walked to its end has all its prefixes among the node strings. */
  lemma PatternDone(patterns: seq<string>, j: int)
    requires 0 <= j < |patterns|
    ensures NodeStrings(patterns[..j + 1]) == NodeStrings(patterns[..j]) + PrefixesOf(patterns[j][..|patterns[j]|])
  {
    assert patterns[..j + 1][..j] == patterns[..j];
    assert patterns[j][..|patterns[j]|] == patterns[j];
  }

  /** The inner loop of `build_trie`: walk or extend the trie along one pattern. */
  method InsertPattern(trie0: Edges, ghost paths0: seq<string>, pattern: string, newLabel0: int)
    returns (trie: Edges, ghost paths: seq<string>, newLabel: int)
    requires TrieOf(trie0, paths0) && newLabel0 == |trie0|
    ensures TrieOf(trie, paths) && newLabel == |trie|
    ensures Strings(paths) == Strings(paths0) + PrefixesOf(pattern)
  {
    trie, paths, newLabel := trie0, paths0, newLabel0;
    var current := 0;
    assert pattern[..0] == [];
    assert pattern[..0][..0] == [];
    assert PrefixesOf(pattern[..0]) == {[]};
    assert paths[0] in Strings(paths);
    for k := 0 to |pattern|
      invariant TrieOf(trie, paths) && newLabel == |trie| && 0 <= current < |trie| && paths[current] == pattern[..k]
      invariant Strings(paths) == Strings(paths0) + PrefixesOf(pattern[..k])
    {
      var symbol := pattern[k];
      PrefixesStep(pattern, k);
      assert pattern[..k + 1] == pattern[..k] + [symbol];
      if symbol in trie[current] {
        current := trie[current][symbol];
        assert paths[current] in Strings(paths);
      } else {
        AddChild(trie, paths, current, symbol);
        trie := trie[current := trie[current][symbol := newLabel]] + [map[]];
        paths := paths + [pattern[..k + 1]];
        current := newLabel;
        newLabel := newLabel + 1;
      }
    }
    assert pattern[..|pattern|] == pattern;
  }

  /**
   * `build_trie`: the root 0, then every pattern walked from the root,
   * adding a fresh newLabel wherever an edge is missing.
   */
  method BuildTrie(patterns: seq<string>) returns (trie: Edges, ghost paths: seq<string>)
    ensures TrieOf(trie, paths) && Strings(paths) == NodeStrings(patterns)
  {
    trie := [map[]];
    paths := [[]];
    var newLabel := 1;
    assert paths[0] == [];
    assert Strings(paths) == {[]};
    for j := 0 to |patterns|
      invariant TrieOf(trie, paths) && newLabel == |trie|
      invariant Strings(paths) == NodeStrings(patterns[..j])
    {
      trie, paths, newLabel := InsertPattern(trie, paths, patterns[j], newLabel);
      PatternDone(patterns, j);
      assert patterns[j][..|patterns[j]|] == patterns[j];
    }
    assert patterns[..|patterns|] == patterns;
  }

  /** Distinct strings at distinct nodes: as many strings as nodes. */
  lemma {:induction false} StringsCount(paths: seq<string>)
    requires Distinct(paths)
    ensures |Strings(paths)| == |paths|
    decreases |paths|
  {
    if |paths| > 0 {
      var front := paths[..|paths| - 1];
      StringsCount(front);
      assert Strings(paths) == Strings(front) + {paths[|paths| - 1]};
      assert paths[|paths| - 1] !in Strings(front);
    }
  }

  /** The strings a built trie spells from the root, one at a time. */
  lemma BuiltWalk(patterns: seq<string>, trie: Edges, paths: seq<string>, s: string)
    requires TrieOf(trie, paths) && Strings(paths) == NodeStrings(patterns)
    ensures Walk(trie, 0, s).Some? <==> s == [] || exists j :: 0 <= j < |patterns| && IsPrefix(s, patterns[j])
  {
    WalkSpells(trie, paths, s);
    NodeStringsAre(patterns, s);
  }

  /**
   * What `build_trie` promises: a pattern, or any prefix of one, is spelled
   * from the root; nothing else is; distinct strings reach distinct nodes;
   * and there is one node per distinct prefix, "" (the root) included.
   */
  lemma BuiltTrie(patterns: seq<string>, trie: Edges, paths: seq<string>)
    requires TrieOf(trie, paths) && Strings(paths) == NodeStrings(patterns)
    ensures forall s :: Walk(trie, 0, s).Some? <==> s == [] || exists j :: 0 <= j < |patterns| && IsPrefix(s, patterns[j])
    ensures forall s, t :: Walk(trie, 0, s).Some? && Walk(trie, 0, s) == Walk(trie, 0, t) ==> s == t
    ensures |trie| == |NodeStrings(patterns)|
  {
    forall s
      ensures Walk(trie, 0, s).Some? <==> s == [] || exists j :: 0 <= j < |patterns| && IsPrefix(s, patterns[j])
    {
      BuiltWalk(patterns, trie, paths, s);
    }
    forall s, t | Walk(trie, 0, s).Some? && Walk(trie, 0, s) == Walk(trie, 0, t)
      ensures s == t
    {
      WalkSpells(trie, paths, s);
      WalkSpells(trie, paths, t);
    }
    StringsCount(paths);
  }
}
