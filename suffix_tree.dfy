/**
 * The suffix tree built by inserting the suffixes one after another
 * (week_1/suffix_tree.py `build_tree`; the same loop is `_build_tree` in
 * week_1/suffix_tree_debug.py, without its prints, and in
 * week_2/suffix_array_stree.py), and the proof that every insertion keeps
 * the shape that SuffixTreeSpec describes.
 */
module SuffixTree {
  import opened StringSpec
  import opened SuffixTreeSpec

  /** A leaf spells the suffix it is labelled with. */
  lemma LeafSpellsSuffix(text: string, nodes: seq<Node>, parent: seq<int>, paths: seq<string>, i: int, w: int)
    requires Tree(text, nodes, parent, paths, i) && 0 <= w < |nodes| && nodes[w].leafStart.Some?
    ensures 0 <= nodes[w].leafStart.value < i && nodes[w].leafStart.value <= |text| && paths[w] == text[nodes[w].leafStart.value..]
  {
    assert EdgeOK(text, nodes, parent, paths, i, w);
  }

  /** A tree of the first i suffixes is one of the first i + 1. */
  lemma TreeGrows(text: string, nodes: seq<Node>, parent: seq<int>, paths: seq<string>, i: int)
    requires Tree(text, nodes, parent, paths, i)
    ensures Tree(text, nodes, parent, paths, i + 1)
  {
    var i' := i + 1;
    forall w | 0 < w < |nodes|
      ensures EdgeOK(text, nodes, parent, paths, i', w)
    {
      assert EdgeOK(text, nodes, parent, paths, i, w);
    }
  }

  /** A common stretch of text[i..] and an earlier suffix text[o..] cannot reach the unique last symbol. */
  lemma SentinelShift(text: string, i: int, o: int, m: int)
    requires UniqueEnd(text) && 0 <= o < i < |text| && 0 <= m && i + m <= |text| && text[i..i + m] == text[o..o + m]
    ensures i + m < |text|
  {
    if m > 0 {
      assert text[i + m - 1] == text[i..i + m][m - 1] == text[o..o + m][m - 1] == text[o + m - 1];
    }
  }

  /**
   * The text facts about the edge text[s..e) into a child of the node that
   * spells text[i..i+j]: P, the string spelled down to the child, is
   * text[i..i+j] followed by the edge, and it is also text[o..e] for some
   * earlier suffix o < i.
   */
  ghost predicate Stretch(text: string, i: int, j: int, s: int, e: int, P: string)
  {
    0 <= i && 0 <= j && i + j < |text| && 0 <= s < e <= |text|
    && P == text[i..i + j] + text[s..e] && |P| <= e && e - |P| < i && P == text[e - |P|..e]
  }

  /** The facts the inner `while` of `build_tree` needs about the edge it compares with. */
  lemma EdgeAhead(text: string, nodes: seq<Node>, parent: seq<int>, paths: seq<string>, i: int, current: int, j: int, next: int)
    requires Walking(text, nodes, parent, paths, i, current, j)
    requires text[i + j] in nodes[current].children && next == nodes[current].children[text[i + j]]
    ensures 0 < next < |nodes| && 0 <= nodes[next].start && 0 < nodes[next].length
    ensures text[nodes[next].start] == text[i + j]
    ensures Stretch(text, i, j, nodes[next].start, nodes[next].start + nodes[next].length, paths[next])
    ensures nodes[next].leafStart.Some? ==> nodes[next].start + nodes[next].length == |text|
  {
    assert ChildOK(text, nodes, parent, current, text[i + j]);
    assert EdgeOK(text, nodes, parent, paths, i, next);
  }

  /**
   * While suffix i agrees with the edge text[s..e) on `overlap` symbols, the
   * next symbols on both sides exist: the comparison in the source reads them
   * before the bound test.
   */
  lemma StretchInRange(text: string, i: int, j: int, s: int, e: int, overlap: int, P: string)
    requires UniqueEnd(text) && Stretch(text, i, j, s, e, P) && 0 <= overlap <= e - s && i + j + overlap <= |text|
    requires text[i + j..i + j + overlap] == text[s..s + overlap]
    ensures i + j + overlap < |text| && s + overlap < |text|
  {
    var o := e - |P|;
    assert o == s - j;
    calc {
      text[o..o + j + overlap];
      P[..j + overlap];
      text[i..i + j] + text[s..s + overlap];
      text[i..i + j] + text[i + j..i + j + overlap];
      text[i..i + j + overlap];
    }
    SentinelShift(text, i, o, j + overlap);
  }

  /** Every agreement of at most n symbols between text[a..] and text[b..] is followed by one more symbol on both sides. */
  ghost predicate Fits(text: string, a: int, b: int, n: int)
  {
    0 <= a <= |text| && 0 <= b <= |text| && forall o :: 0 <= o <= n && a + o <= |text| && b + o <= |text| && Window(text, a, o) == Window(text, b, o) ==>
      a + o < |text| && b + o < |text|
  }

  /** The o symbols of text from a on. */
  ghost function Window(text: string, a: int, o: int): (w: string)
    requires 0 <= a && 0 <= o && a + o <= |text|
    ensures |w| == o
  {
    text[a..a + o]
  }

  /** One instance of Fits. */
  lemma FitsAt(text: string, a: int, b: int, n: int, o: int)
    requires Fits(text, a, b, n) && 0 <= o <= n && a + o <= |text| && b + o <= |text| && text[a..a + o] == text[b..b + o]
    ensures a + o < |text| && b + o < |text|
  {
    assert Window(text, a, o) == Window(text, b, o);
  }

  /** The edge ahead of the walk fits: comparing it with the suffix never runs off the text. */
  lemma StretchFits(text: string, i: int, j: int, s: int, e: int, P: string)
    requires UniqueEnd(text) && Stretch(text, i, j, s, e, P)
    ensures Fits(text, i + j, s, e - s)
  {
    forall o | 0 <= o <= e - s && i + j + o <= |text| && s + o <= |text| && Window(text, i + j, o) == Window(text, s, o)
      ensures i + j + o < |text| && s + o < |text|
    {
      StretchInRange(text, i, j, s, e, o, P);
    }
  }

  /** A child entry whose key, child and child's start and parent are unchanged stays well formed. */
  lemma ChildKept(text: string, nodes: seq<Node>, parent: seq<int>, nodes': seq<Node>, parent': seq<int>, v: int, c: char)
    requires 0 <= v < |nodes| == |parent| <= |nodes'| == |parent'| && c in nodes[v].children && ChildOK(text, nodes, parent, v, c)
    requires c in nodes'[v].children && nodes'[v].children[c] == nodes[v].children[c]
    requires var w := nodes[v].children[c]; parent'[w] == parent[w] && nodes'[w].start == nodes[w].start
    ensures ChildOK(text, nodes', parent', v, c)
  {
  }

  /**
   * The edge into w stays well formed when w keeps its edge, its label and
   * its children or gains some, and its parent keeps its string and the entry
   * for w.
   */
  lemma EdgeKept(text: string, nodes: seq<Node>, parent: seq<int>, paths: seq<string>, i: int,
                 nodes': seq<Node>, parent': seq<int>, paths': seq<string>, i': int, w: int)
    requires 0 < w < |nodes| == |parent| == |paths| && |nodes'| == |parent'| == |paths'| && |nodes| <= |nodes'|
    requires EdgeOK(text, nodes, parent, paths, i, w) && i <= i'
    requires nodes'[w].start == nodes[w].start && nodes'[w].length == nodes[w].length && nodes'[w].leafStart == nodes[w].leafStart
    requires |nodes'[w].children| >= |nodes[w].children| && (nodes[w].leafStart.Some? ==> nodes'[w].children == nodes[w].children)
    requires parent'[w] == parent[w] && paths'[w] == paths[w] && paths'[parent[w]] == paths[parent[w]]
    requires text[nodes[w].start] in nodes'[parent[w]].children && nodes'[parent[w]].children[text[nodes[w].start]] == w
    ensures EdgeOK(text, nodes', parent', paths', i', w)
  {
  }

  lemma NewLeafEdge(text: string, nodes: seq<Node>, parent: seq<int>, paths: seq<string>, i: int, current: int, j: int,
                    nodes': seq<Node>, parent': seq<int>, paths': seq<string>, i': int, w: int)
    requires LeafAdded(text, nodes, parent, paths, i, current, j, nodes', parent', paths')
    requires paths[current] == text[i..i + j] && i' == i + 1 && w == |nodes|
    ensures EdgeOK(text, nodes', parent', paths', i', w)
  {
    assert paths'[|nodes|] == text[i..|text|] == paths'[current] + text[i + j..|text|];
  }

  /** The child entries after `new_leaf` is hung below current. */
  lemma AddLeafChildren(text: string, nodes: seq<Node>, parent: seq<int>, paths: seq<string>, i: int, current: int, j: int,
                        nodes': seq<Node>, parent': seq<int>, paths': seq<string>)
    requires Walking(text, nodes, parent, paths, i, current, j)
    requires LeafAdded(text, nodes, parent, paths, i, current, j, nodes', parent', paths')
    ensures forall v, c :: 0 <= v < |nodes'| && c in nodes'[v].children ==> ChildOK(text, nodes', parent', v, c)
  {
    forall v, c | 0 <= v < |nodes'| && c in nodes'[v].children
      ensures ChildOK(text, nodes', parent', v, c)
    {
      if v != current || c != text[i + j] {
        assert ChildOK(text, nodes, parent, v, c);
        ChildKept(text, nodes, parent, nodes', parent', v, c);
      } else {
        assert nodes'[current].children[c] == |nodes| && parent'[|nodes|] == current && nodes'[|nodes|].start == i + j;
      }
    }
  }

  /** The edges after `new_leaf` is hung below current. */
  lemma AddLeafEdges(text: string, nodes: seq<Node>, parent: seq<int>, paths: seq<string>, i: int, current: int, j: int,
                     nodes': seq<Node>, parent': seq<int>, paths': seq<string>, i': int)
    requires Walking(text, nodes, parent, paths, i, current, j)
    requires LeafAdded(text, nodes, parent, paths, i, current, j, nodes', parent', paths') && i' == i + 1
    ensures forall w :: 0 < w < |nodes'| ==> EdgeOK(text, nodes', parent', paths', i', w)
  {
    forall w | 0 < w < |nodes'|
      ensures EdgeOK(text, nodes', parent', paths', i', w)
    {
      if w < |nodes| {
        assert EdgeOK(text, nodes, parent, paths, i, w);
        EdgeKept(text, nodes, parent, paths, i, nodes', parent', paths', i', w);
      } else {
        NewLeafEdge(text, nodes, parent, paths, i, current, j, nodes', parent', paths', i', w);
      }
    }
  }

  /** `new_leaf` under current when no edge starts with text[i + j]: the tree then holds suffix i too. */
  lemma AddLeaf(text: string, nodes: seq<Node>, parent: seq<int>, paths: seq<string>, i: int, current: int, j: int,
                nodes': seq<Node>, parent': seq<int>, paths': seq<string>)
    requires Walking(text, nodes, parent, paths, i, current, j)
    requires LeafAdded(text, nodes, parent, paths, i, current, j, nodes', parent', paths')
    ensures Tree(text, nodes', parent', paths', i + 1)
  {
    AddLeafChildren(text, nodes, parent, paths, i, current, j, nodes', parent', paths');
    AddLeafEdges(text, nodes, parent, paths, i, current, j, nodes', parent', paths', i + 1);
  }

  /** The strings spelled down to the two new nodes, and next's unchanged one. */
  lemma SplitPaths(text: string, paths: seq<string>, i: int, current: int, j: int, next: int, s: int, e: int, overlap: int, paths': seq<string>)
    requires 0 <= current < |paths| && 0 <= next < |paths| && 0 <= i && 0 <= j && 0 <= s && 0 < overlap < e - s && e <= |text| && i + j + overlap < |text|
    requires paths[current] == text[i..i + j] && paths[next] == paths[current] + text[s..e]
    requires |paths[next]| <= e && paths[next] == text[e - |paths[next]|..e]
    requires text[i + j..i + j + overlap] == text[s..s + overlap]
    requires |paths'| == |paths| + 2 && paths'[|paths|] == text[i..i + j + overlap] && paths'[|paths| + 1] == text[i..]
    ensures var m := |paths|;
      paths'[m] == paths[current] + text[s..s + overlap]
      && paths[next] == paths'[m] + text[s + overlap..e]
      && paths'[m + 1] == paths'[m] + text[i + j + overlap..|text|]
      && paths'[m] == text[e - |paths[next]|..s + overlap]
  {
    assert text[s..e] == text[s..s + overlap] + text[s + overlap..e];
    assert text[i..i + j + overlap] == text[i..i + j] + text[i + j..i + j + overlap];
    assert text[i..] == text[i..i + j + overlap] + text[i + j + overlap..|text|];
    var o := e - |paths[next]|;
    assert text[o..e][..j + overlap] == text[o..s + overlap];
  }

  /** The edge into next after the split: its tail, below new_internal. */
  lemma SplitNextEdge(text: string, nodes: seq<Node>, parent: seq<int>, paths: seq<string>, i: int, current: int, j: int, next: int, overlap: int,
                      nodes': seq<Node>, parent': seq<int>, paths': seq<string>, i': int, w: int)
    requires EdgeSplit(text, nodes, parent, paths, i, current, j, next, overlap, nodes', parent', paths')
    requires paths[current] == text[i..i + j] && EdgeOK(text, nodes, parent, paths, i, next) && parent[next] == current
    requires i' == i + 1 && w == next
    ensures EdgeOK(text, nodes', parent', paths', i', w)
  {
    var s, e := nodes[next].start, nodes[next].start + nodes[next].length;
    SplitPaths(text, paths, i, current, j, next, s, e, overlap, paths');
    SplitNextNode(text, nodes, parent, paths, i, current, j, next, overlap, nodes', parent', paths', w, s);
    EdgeFrom(text, nodes', parent', paths', i', w, |nodes|, s + overlap, e, e - |paths[next]|);
  }

  /** Where the split leaves next: below new_internal, with the tail of its edge and its old string. */
  lemma SplitNextNode(text: string, nodes: seq<Node>, parent: seq<int>, paths: seq<string>, i: int, current: int, j: int, next: int, overlap: int,
                      nodes': seq<Node>, parent': seq<int>, paths': seq<string>, w: int, s: int)
    requires EdgeSplit(text, nodes, parent, paths, i, current, j, next, overlap, nodes', parent', paths')
    requires w == next && s == nodes[next].start
    ensures 0 <= |nodes| < |nodes'| && 0 < w < |nodes'| == |parent'| == |paths'|
    ensures parent'[w] == |nodes| && paths'[w] == paths[next] && paths'[|nodes|] == paths'[|paths|]
    ensures nodes'[w].start == s + overlap && nodes'[w].start + nodes'[w].length == s + nodes[next].length
    ensures nodes'[w].leafStart == nodes[next].leafStart && nodes'[w].children == nodes[next].children
    ensures text[s + overlap] in nodes'[|nodes|].children && nodes'[|nodes|].children[text[s + overlap]] == w
  {
  }

  /** EdgeOK, one conjunct at a time, for an edge text[s..e) from p into w whose string starts at o. */
  lemma EdgeFrom(text: string, nodes: seq<Node>, parent: seq<int>, paths: seq<string>, i: int, w: int, p: int, s: int, e: int, o: int)
    requires 0 <= p < |nodes| && 0 < w < |nodes| == |parent| == |paths|
    requires parent[w] == p && nodes[w].start == s && s + nodes[w].length == e && 0 <= s < e <= |text|
    requires paths[w] == paths[p] + text[s..e]
    requires text[s] in nodes[p].children && nodes[p].children[text[s]] == w
    requires 0 <= o < i && o + |paths[w]| == e && paths[w] == text[o..e]
    requires nodes[w].leafStart.None? ==> e < |text| && |nodes[w].children| >= 2
    requires nodes[w].leafStart.Some? ==> nodes[w].leafStart.value == o && e == |text| && nodes[w].children == map[]
    ensures EdgeOK(text, nodes, parent, paths, i, w)
  {
  }

  /** An inner node with two children, hung below p by the edge text[s..s+overlap), spelling text[o..s+overlap). */
  lemma NewInnerEdge(text: string, nodes: seq<Node>, parent: seq<int>, paths: seq<string>, i: int, w: int,
                     p: int, next: int, s: int, overlap: int, a: char, b: char, o: int)
    requires 0 <= p < |nodes| && 0 < w < |nodes| == |parent| == |paths|
    requires parent[w] == p && nodes[w] == Node(map[a := w + 1][b := next], s, overlap, None) && a != b
    requires 0 <= s && 0 < overlap && s + overlap < |text|
    requires text[s] in nodes[p].children && nodes[p].children[text[s]] == w
    requires paths[w] == paths[p] + text[s..s + overlap]
    requires 0 <= o < i && o + |paths[w]| == s + overlap && paths[w] == text[o..s + overlap]
    ensures EdgeOK(text, nodes, parent, paths, i, w)
  {
    assert nodes[w].children.Keys == {a, b};
  }

  /** The edge into new_internal: the first `overlap` symbols of next's old edge. */
  lemma SplitInnerEdge(text: string, nodes: seq<Node>, parent: seq<int>, paths: seq<string>, i: int, current: int, j: int, next: int, overlap: int,
                       nodes': seq<Node>, parent': seq<int>, paths': seq<string>, i': int, w: int)
    requires EdgeSplit(text, nodes, parent, paths, i, current, j, next, overlap, nodes', parent', paths')
    requires paths[current] == text[i..i + j] && EdgeOK(text, nodes, parent, paths, i, next) && parent[next] == current
    requires i' == i + 1 && w == |nodes|
    ensures EdgeOK(text, nodes', parent', paths', i', w)
  {
    var s, e := nodes[next].start, nodes[next].start + nodes[next].length;
    var o := e - |paths[next]|;
    SplitInnerNode(text, nodes, parent, paths, i, current, j, next, overlap, nodes', parent', paths', w, s);
    SplitInnerPath(text, paths, i, current, j, next, overlap, paths', i', w, s, e, o);
    NewInnerEdge(text, nodes', parent', paths', i', w, current, next, s, overlap, text[i + j + overlap], text[s + overlap], o);
  }

  /** Where the split puts new_internal: below current, with new_leaf and next as its two children. */
  lemma SplitInnerNode(text: string, nodes: seq<Node>, parent: seq<int>, paths: seq<string>, i: int, current: int, j: int, next: int, overlap: int,
                       nodes': seq<Node>, parent': seq<int>, paths': seq<string>, w: int, s: int)
    requires EdgeSplit(text, nodes, parent, paths, i, current, j, next, overlap, nodes', parent', paths')
    requires w == |nodes| && s == nodes[next].start
    ensures 0 <= current < |nodes'| && 0 < w < |nodes'| == |parent'| == |paths'|
    ensures parent'[w] == current && nodes'[w] == Node(map[text[i + j + overlap] := w + 1][text[s + overlap] := next], s, overlap, None)
    ensures text[i + j + overlap] != text[s + overlap]
    ensures 0 <= s && 0 < overlap && s + overlap < |text|
    ensures text[s] in nodes'[current].children && nodes'[current].children[text[s]] == w
    ensures paths'[current] == paths[current] && paths'[w] == text[i..i + j + overlap]
  {
  }

  /** The string spelled down to new_internal. */
  lemma SplitInnerPath(text: string, paths: seq<string>, i: int, current: int, j: int, next: int, overlap: int,
                       paths': seq<string>, i': int, w: int, s: int, e: int, o: int)
    requires 0 <= current < |paths| && 0 <= next < |paths| && 0 <= i && 0 <= j && 0 <= s && 0 < overlap < e - s && e <= |text| && i + j + overlap < |text|
    requires paths[current] == text[i..i + j] && paths[next] == paths[current] + text[s..e]
    requires |paths[next]| <= e && paths[next] == text[e - |paths[next]|..e] && e - |paths[next]| < i
    requires text[i + j..i + j + overlap] == text[s..s + overlap]
    requires i' == i + 1 && w == |paths| && o == e - |paths[next]|
    requires |paths'| == |paths| + 2 && paths'[current] == paths[current] && paths'[w] == text[i..i + j + overlap] && paths'[w + 1] == text[i..]
    ensures paths'[w] == paths'[current] + text[s..s + overlap]
    ensures 0 <= o < i' && o + |paths'[w]| == s + overlap && paths'[w] == text[o..s + overlap]
  {
    SplitPaths(text, paths, i, current, j, next, s, e, overlap, paths');
  }

  /** The edge into new_leaf: the rest of suffix i. */
  lemma SplitLeafEdge(text: string, nodes: seq<Node>, parent: seq<int>, paths: seq<string>, i: int, current: int, j: int, next: int, overlap: int,
                      nodes': seq<Node>, parent': seq<int>, paths': seq<string>, i': int, w: int)
    requires EdgeSplit(text, nodes, parent, paths, i, current, j, next, overlap, nodes', parent', paths')
    requires paths[current] == text[i..i + j] && EdgeOK(text, nodes, parent, paths, i, next) && parent[next] == current
    requires i' == i + 1 && w == |nodes| + 1
    ensures EdgeOK(text, nodes', parent', paths', i', w)
  {
    var s, e := nodes[next].start, nodes[next].start + nodes[next].length;
    SplitPaths(text, paths, i, current, j, next, s, e, overlap, paths');
    SplitLeafNode(text, nodes, parent, paths, i, current, j, next, overlap, nodes', parent', paths', w);
    EdgeFrom(text, nodes', parent', paths', i', w, |nodes|, i + j + overlap, |text|, i);
  }

  /** Where the split puts new_leaf: below new_internal, labelled i, with the rest of suffix i as its edge. */
  lemma SplitLeafNode(text: string, nodes: seq<Node>, parent: seq<int>, paths: seq<string>, i: int, current: int, j: int, next: int, overlap: int,
                      nodes': seq<Node>, parent': seq<int>, paths': seq<string>, w: int)
    requires EdgeSplit(text, nodes, parent, paths, i, current, j, next, overlap, nodes', parent', paths')
    requires w == |nodes| + 1
    ensures 0 <= |nodes| < |nodes'| && 0 < w < |nodes'| == |parent'| == |paths'|
    ensures parent'[w] == |nodes| && paths'[w] == paths'[|nodes| + 1] && paths'[|nodes|] == paths'[|paths|]
    ensures nodes'[w] == Node(map[], i + j + overlap, |text| - i - j - overlap, Some(i))
    ensures text[i + j + overlap] in nodes'[|nodes|].children && nodes'[|nodes|].children[text[i + j + overlap]] == w
  {
  }

  /** The entries of the other nodes survive the split. */
  lemma SplitKeepsChild(text: string, nodes: seq<Node>, parent: seq<int>, paths: seq<string>, i: int, current: int, j: int, next: int, overlap: int,
                        nodes': seq<Node>, parent': seq<int>, paths': seq<string>, v: int, c: char)
    requires EdgeSplit(text, nodes, parent, paths, i, current, j, next, overlap, nodes', parent', paths')
    requires 0 <= v < |nodes| && c in nodes[v].children && ChildOK(text, nodes, parent, v, c)
    requires !(v == current && c == text[nodes[next].start]) && ChildOK(text, nodes, parent, current, text[nodes[next].start])
    ensures c in nodes'[v].children && ChildOK(text, nodes', parent', v, c)
  {
    var w := nodes[v].children[c];
    assert nodes'[v].children == (if v == current then nodes[current].children[text[nodes[next].start] := |nodes|] else nodes[v].children);
    assert w != next;
    assert parent'[w] == parent[w] && nodes'[w].start == nodes[w].start;
    ChildKept(text, nodes, parent, nodes', parent', v, c);
  }

  /** The three entries the split writes: current to new_internal, and new_internal to new_leaf and to next. */
  lemma SplitNewChild(text: string, nodes: seq<Node>, parent: seq<int>, paths: seq<string>, i: int, current: int, j: int, next: int, overlap: int,
                      nodes': seq<Node>, parent': seq<int>, paths': seq<string>, v: int, c: char)
    requires EdgeSplit(text, nodes, parent, paths, i, current, j, next, overlap, nodes', parent', paths')
    requires 0 <= v < |nodes'| && c in nodes'[v].children && (v >= |nodes| || (v == current && c == text[nodes[next].start]))
    ensures ChildOK(text, nodes', parent', v, c)
  {
    var s, m := nodes[next].start, |nodes|;
    if v == m + 1 {
      assert false;
    } else if v == m {
      assert nodes'[m].children.Keys == {text[i + j + overlap], text[s + overlap]};
      if c == text[s + overlap] {
        assert nodes'[m].children[c] == next && parent'[next] == m && nodes'[next].start == s + overlap;
      } else {
        assert nodes'[m].children[c] == m + 1 && parent'[m + 1] == m && nodes'[m + 1].start == i + j + overlap;
      }
    } else {
      assert nodes'[current].children[c] == m && parent'[m] == current && nodes'[m].start == s;
    }
  }

  /** The edges into the other nodes survive the split. */
  lemma SplitKeepsEdge(text: string, nodes: seq<Node>, parent: seq<int>, paths: seq<string>, i: int, current: int, j: int, next: int, overlap: int,
                       nodes': seq<Node>, parent': seq<int>, paths': seq<string>, i': int, w: int)
    requires EdgeSplit(text, nodes, parent, paths, i, current, j, next, overlap, nodes', parent', paths')
    requires 0 < w < |nodes| && w != next && EdgeOK(text, nodes, parent, paths, i, w) && i' == i + 1
    requires ChildOK(text, nodes, parent, current, text[nodes[next].start])
    ensures EdgeOK(text, nodes', parent', paths', i', w)
  {
    var p, m := parent[w], |nodes|;
    assert nodes[p].children[text[nodes[w].start]] == w;
    assert nodes'[p].children == (if p == current then nodes[current].children[text[nodes[next].start] := m] else nodes[p].children);
    assert parent'[w] == p && paths'[w] == paths[w] && paths'[p] == paths[p];
    assert nodes'[w] == (if w == current then nodes[current].(children := nodes[current].children[text[nodes[next].start] := m]) else nodes[w]);
    EdgeKept(text, nodes, parent, paths, i, nodes', parent', paths', i', w);
  }

  /** The sequences BreakEdge builds are the split described by EdgeSplit. */
  lemma SplitBuilt(text: string, nodes: seq<Node>, parent: seq<int>, paths: seq<string>, i: int, current: int, j: int, next: int, overlap: int,
                   newInternal: Node, newLeaf: Node, nextNode: Node, nodes': seq<Node>, parent': seq<int>, paths': seq<string>)
    requires |nodes| == |parent| == |paths| && 0 <= i && 0 <= j && BreakFacts(text, nodes, i, current, j, next, overlap)
    requires current != next && text[nodes[next].start] == text[i + j] && nodes[next].start + nodes[next].length <= |text|
    requires newLeaf == Node(map[], i + j + overlap, |text| - i - j - overlap, Some(i))
    requires nextNode == nodes[next].(start := nodes[next].start + overlap, length := nodes[next].length - overlap)
    requires newInternal == Node(map[][text[newLeaf.start] := |nodes| + 1][text[nextNode.start] := next], nodes[next].start, overlap, None)
    requires nodes' == nodes[next := nextNode][current := nodes[current].(children := nodes[current].children[text[newInternal.start] := |nodes|])]
                       + [newInternal, newLeaf]
    requires parent' == parent[next := |nodes|] + [current, |nodes|] && paths' == paths + [text[i..i + j + overlap], text[i..]]
    ensures EdgeSplit(text, nodes, parent, paths, i, current, j, next, overlap, nodes', parent', paths')
  {
  }

  /** The split keeps a suffix tree, which now holds suffix i too. */
  lemma SplitEdge(text: string, nodes: seq<Node>, parent: seq<int>, paths: seq<string>, i: int, current: int, j: int, next: int, overlap: int,
                  nodes': seq<Node>, parent': seq<int>, paths': seq<string>)
    requires Walking(text, nodes, parent, paths, i, current, j)
    requires EdgeSplit(text, nodes, parent, paths, i, current, j, next, overlap, nodes', parent', paths')
    ensures Tree(text, nodes', parent', paths', i + 1)
  {
    var i' := i + 1;
    var s, m := nodes[next].start, |nodes|;
    assert ChildOK(text, nodes, parent, current, text[s]);
    assert EdgeOK(text, nodes, parent, paths, i, next);
    forall v, c | 0 <= v < |nodes'| && c in nodes'[v].children
      ensures ChildOK(text, nodes', parent', v, c)
    {
      if v < m && !(v == current && c == text[s]) {
        assert nodes'[v].children.Keys == nodes[v].children.Keys;
        assert ChildOK(text, nodes, parent, v, c);
        SplitKeepsChild(text, nodes, parent, paths, i, current, j, next, overlap, nodes', parent', paths', v, c);
      } else {
        SplitNewChild(text, nodes, parent, paths, i, current, j, next, overlap, nodes', parent', paths', v, c);
      }
    }
    forall w | 0 < w < |nodes'|
      ensures EdgeOK(text, nodes', parent', paths', i', w)
    {
      if w == next {
        SplitNextEdge(text, nodes, parent, paths, i, current, j, next, overlap, nodes', parent', paths', i', w);
      } else if w == m {
        SplitInnerEdge(text, nodes, parent, paths, i, current, j, next, overlap, nodes', parent', paths', i', w);
      } else if w == m + 1 {
        SplitLeafEdge(text, nodes, parent, paths, i, current, j, next, overlap, nodes', parent', paths', i', w);
      } else {
        assert EdgeOK(text, nodes, parent, paths, i, w);
        SplitKeepsEdge(text, nodes, parent, paths, i, current, j, next, overlap, nodes', parent', paths', i', w);
      }
    }
  }

  /**
   * The inner `while` of `build_tree`: the number of symbols on which suffix
   * i, from its j-th symbol on, agrees with the edge into next.
   */
  method EdgeOverlap(text: string, nodes: seq<Node>, i: int, suffix: string, j: int, next: int, ghost P: string)
    returns (overlap: int)
    requires UniqueEnd(text) && 0 < next < |nodes| && Stretch(text, i, j, nodes[next].start, nodes[next].start + nodes[next].length, P)
    requires suffix == text[i..] && text[nodes[next].start] == text[i + j]
    requires nodes[next].leafStart.Some? ==> nodes[next].start + nodes[next].length == |text|
    ensures 0 < overlap <= nodes[next].length
    ensures i + j + overlap < |text| && nodes[next].start + overlap < |text|
    ensures text[i + j..i + j + overlap] == text[nodes[next].start..nodes[next].start + overlap]
    ensures overlap < nodes[next].length ==> text[i + j + overlap] != text[nodes[next].start + overlap]
    ensures overlap == nodes[next].length ==> nodes[next].leafStart.None?
  {
    StretchFits(text, i, j, nodes[next].start, nodes[next].start + nodes[next].length, P);
    overlap := CommonRun(text, i, suffix, j, nodes[next].start, nodes[next].length);
  }

  /** Agreement on k symbols followed by one more equal pair is agreement on k + 1. */
  lemma RunStep(text: string, a: int, b: int, k: int)
    requires 0 <= a && 0 <= b && 0 <= k && a + k < |text| && b + k < |text|
    requires text[a..a + k] == text[b..b + k] && text[a + k] == text[b + k]
    ensures text[a..a + k + 1] == text[b..b + k + 1]
  {
    assert text[a..a + k + 1] == text[a..a + k] + [text[a + k]];
    assert text[b..b + k + 1] == text[b..b + k] + [text[b + k]];
  }

  /** The loop itself: the length of the common run of suffix[j..] and text[s..], capped at n. */
  method CommonRun(text: string, i: int, suffix: string, j: int, s: int, n: int) returns (overlap: int)
    requires 0 <= i <= |text| && 0 <= j && suffix == text[i..] && 0 <= n && Fits(text, i + j, s, n)
    ensures 0 <= overlap <= n && i + j + overlap < |text| && s + overlap < |text|
    ensures text[i + j..i + j + overlap] == text[s..s + overlap]
    ensures overlap < n ==> text[i + j + overlap] != text[s + overlap]
  {
    overlap := 0;
    FitsAt(text, i + j, s, n, 0);
    while suffix[j + overlap] == text[s + overlap] && overlap < n
      invariant 0 <= overlap <= n && i + j + overlap < |text| && s + overlap < |text|
      invariant text[i + j..i + j + overlap] == text[s..s + overlap]
      decreases n - overlap
    {
      RunStep(text, i + j, s, overlap);
      overlap := overlap + 1;
      FitsAt(text, i + j, s, n, overlap);
    }
  }

  /** When the whole edge into next matches, the walk goes on from next. */
  lemma Descend(text: string, nodes: seq<Node>, parent: seq<int>, paths: seq<string>, i: int, current: int, j: int, next: int, overlap: int)
    requires Walking(text, nodes, parent, paths, i, current, j)
    requires text[i + j] in nodes[current].children && next == nodes[current].children[text[i + j]]
    requires 0 < next < |nodes| && 0 <= nodes[next].start && 0 <= overlap == nodes[next].length && nodes[next].leafStart.None?
    requires i + j + overlap < |text| && nodes[next].start + overlap <= |text|
    requires text[i + j..i + j + overlap] == text[nodes[next].start..nodes[next].start + overlap]
    ensures Walking(text, nodes, parent, paths, i, next, j + overlap)
  {
    assert ChildOK(text, nodes, parent, current, text[i + j]);
    assert EdgeOK(text, nodes, parent, paths, i, next);
    assert paths[next] == text[i..i + j] + text[i + j..i + j + overlap];
    assert text[i..i + j] + text[i + j..i + j + overlap] == text[i..i + j + overlap];
  }

  /** The `except KeyError` branch: `new_leaf` for the rest of suffix i under current. */
  method AttachLeaf(text: string, nodes: seq<Node>, ghost parent: seq<int>, ghost paths: seq<string>, i: int, current: int, j: int, suffixLength: int)
    returns (nodes': seq<Node>, ghost parent': seq<int>, ghost paths': seq<string>)
    requires Walking(text, nodes, parent, paths, i, current, j) && suffixLength == |text| - i
    requires text[i + j] !in nodes[current].children
    ensures Tree(text, nodes', parent', paths', i + 1) && |nodes'| == |nodes| + 1
    ensures nodes'[|nodes|].leafStart == Some(i) && forall w :: 0 <= w < |nodes| ==> nodes'[w].leafStart == nodes[w].leafStart
  {
    var newLeaf := Node(map[], i + j, suffixLength - j, Some(i));
    nodes' := nodes[current := nodes[current].(children := nodes[current].children[text[i + j] := |nodes|])] + [newLeaf];
    parent', paths' := parent + [current], paths + [text[i..]];
    AddLeaf(text, nodes, parent, paths, i, current, j, nodes', parent', paths');
  }

  /** What BreakEdge builds is a suffix tree of the first i + 1 suffixes. */
  lemma BreakEdgeSound(text: string, nodes: seq<Node>, parent: seq<int>, paths: seq<string>, i: int, current: int, j: int, next: int, overlap: int,
                       newInternal: Node, newLeaf: Node, nextNode: Node, nodes': seq<Node>, parent': seq<int>, paths': seq<string>)
    requires BreakAt(text, nodes, parent, paths, i, current, j, next, overlap)
    requires newLeaf == Node(map[], i + j + overlap, |text| - i - j - overlap, Some(i))
    requires nextNode == nodes[next].(start := nodes[next].start + overlap, length := nodes[next].length - overlap)
    requires newInternal == Node(map[][text[newLeaf.start] := |nodes| + 1][text[nextNode.start] := next], nodes[next].start, overlap, None)
    requires nodes' == nodes[next := nextNode][current := nodes[current].(children := nodes[current].children[text[newInternal.start] := |nodes|])]
                       + [newInternal, newLeaf]
    requires parent' == parent[next := |nodes|] + [current, |nodes|] && paths' == paths + [text[i..i + j + overlap], text[i..]]
    ensures Tree(text, nodes', parent', paths', i + 1) && |nodes'| == |nodes| + 2
    ensures nodes'[|nodes| + 1].leafStart == Some(i) && nodes'[|nodes|].leafStart.None?
    ensures forall w :: 0 <= w < |nodes| ==> nodes'[w].leafStart == nodes[w].leafStart
  {
    assert ChildOK(text, nodes, parent, current, text[i + j]);
    assert EdgeOK(text, nodes, parent, paths, i, next);
    assert |paths[next]| == j + nodes[next].length;
    assert text[nodes[next].start] == text[i + j] && current != next;
    SplitBuilt(text, nodes, parent, paths, i, current, j, next, overlap, newInternal, newLeaf, nextNode, nodes', parent', paths');
    SplitEdge(text, nodes, parent, paths, i, current, j, next, overlap, nodes', parent', paths');
  }

  /**
   * The split branch: `new_internal` takes the first `overlap` symbols of
   * the edge into next, next keeps the rest below it and `new_leaf` the rest
   * of suffix i.
   */
  method BreakEdge(text: string, nodes: seq<Node>, ghost parent: seq<int>, ghost paths: seq<string>, i: int, current: int, j: int,
                   next: int, overlap: int, suffixLength: int)
    returns (nodes': seq<Node>, ghost parent': seq<int>, ghost paths': seq<string>)
    requires BreakAt(text, nodes, parent, paths, i, current, j, next, overlap) && suffixLength == |text| - i
    ensures Tree(text, nodes', parent', paths', i + 1) && |nodes'| == |nodes| + 2
    ensures nodes'[|nodes| + 1].leafStart == Some(i) && nodes'[|nodes|].leafStart.None?
    ensures forall w :: 0 <= w < |nodes| ==> nodes'[w].leafStart == nodes[w].leafStart
  {
    var s := nodes[next].start;
    var m := |nodes|;
    var newInternal := Node(map[], s, overlap, None);
    var newLeaf := Node(map[], i + j + overlap, suffixLength - j - overlap, Some(i));
    var nextNode := nodes[next].(start := s + overlap, length := nodes[next].length - overlap);
    newInternal := newInternal.(children := newInternal.children[text[newLeaf.start] := m + 1]);
    newInternal := newInternal.(children := newInternal.children[text[nextNode.start] := next]);
    nodes' := nodes[next := nextNode][current := nodes[current].(children := nodes[current].children[text[newInternal.start] := m])]
              + [newInternal, newLeaf];
    parent', paths' := parent[next := m] + [current, m], paths + [text[i..i + j + overlap], text[i..]];
    BreakEdgeSound(text, nodes, parent, paths, i, current, j, next, overlap, newInternal, newLeaf, nextNode, nodes', parent', paths');
  }

  /**
   * One pass of the outer loop of `build_tree`: insert suffix i =
   * text[i:] of length suffixLength.  Exactly one leaf is added, labelled
   * i, and at most one inner node.
   */
  method InsertSuffix(text: string, nodes0: seq<Node>, ghost parent0: seq<int>, ghost paths0: seq<string>, i: int, suffixLength: int)
    returns (nodes: seq<Node>, ghost parent: seq<int>, ghost paths: seq<string>, ghost leaf: int)
    requires UniqueEnd(text) && 0 <= i < |text| && suffixLength == |text| - i
    requires Tree(text, nodes0, parent0, paths0, i)
    ensures Tree(text, nodes, parent, paths, i + 1)
    ensures |nodes0| < |nodes| <= |nodes0| + 2 && leaf == |nodes| - 1 && nodes[leaf].leafStart == Some(i)
    ensures forall w :: 0 <= w < |nodes0| ==> nodes[w].leafStart == nodes0[w].leafStart
    ensures forall w :: |nodes0| <= w < leaf ==> nodes[w].leafStart.None?
  {
    nodes, parent, paths := nodes0, parent0, paths0;
    leaf := 0;
    var suffix := text[i..];
    var current := 0;
    var j := 0;
    while j < suffixLength
      invariant 0 <= j <= suffixLength
      invariant j < suffixLength ==> nodes == nodes0 && parent == parent0 && paths == paths0
      invariant j < suffixLength ==> Walking(text, nodes, parent, paths, i, current, j)
      invariant j == suffixLength ==> Tree(text, nodes, parent, paths, i + 1) && |nodes| == |nodes0| + 1 && leaf == |nodes| - 1
      invariant j == suffixLength ==> nodes[leaf].leafStart == Some(i) && forall w :: 0 <= w < |nodes0| ==> nodes[w].leafStart == nodes0[w].leafStart
      decreases suffixLength - j
    {
      if suffix[j] !in nodes[current].children {
        nodes, parent, paths := AttachLeaf(text, nodes, parent, paths, i, current, j, suffixLength);
        leaf := |nodes| - 1;
        j := suffixLength;
      } else {
        var next := nodes[current].children[suffix[j]];
        EdgeAhead(text, nodes, parent, paths, i, current, j, next);
        var overlap := EdgeOverlap(text, nodes, i, suffix, j, next, paths[next]);
        if overlap == nodes[next].length {
          Descend(text, nodes, parent, paths, i, current, j, next, overlap);
          current := next;
          j := j + overlap;
        } else {
          nodes, parent, paths := BreakEdge(text, nodes, parent, paths, i, current, j, next, overlap, suffixLength);
          leaf := |nodes| - 1;
          break;
        }
      }
    }
  }

  /**
   * `build_tree`: insert text[0:], text[1:], ... in turn.  The result is a
   * suffix tree of text in which leafOf[k] is the leaf labelled k; it
   * spells text[k..].
   */
  method BuildTree(text: string) returns (nodes: seq<Node>, ghost parent: seq<int>, ghost paths: seq<string>, ghost leafOf: seq<int>)
    requires UniqueEnd(text)
    ensures Tree(text, nodes, parent, paths, |text|)
    ensures |leafOf| == |text|
    ensures forall k :: 0 <= k < |text| ==> 0 < leafOf[k] < |nodes| && nodes[leafOf[k]].leafStart == Some(k)
    ensures forall w :: 0 <= w < |nodes| && nodes[w].leafStart.Some? ==>
      0 <= nodes[w].leafStart.value < |text| && paths[w] == text[nodes[w].leafStart.value..]
    ensures |text| < |nodes| <= 2 * |text| + 1
  {
    var suffixLength := 1 + |text|;
    nodes, parent, paths, leafOf := [Root], [0], [[]], [];
    for i := 0 to |text|
      invariant suffixLength == |text| - i + 1
      invariant Tree(text, nodes, parent, paths, i)
      invariant |leafOf| == i && i < |nodes| <= 2 * i + 1
      invariant forall k :: 0 <= k < i ==> 0 < leafOf[k] < |nodes| && nodes[leafOf[k]].leafStart == Some(k)
    {
      suffixLength := suffixLength - 1;
      ghost var leaf;
      nodes, parent, paths, leaf := InsertSuffix(text, nodes, parent, paths, i, suffixLength);
      leafOf := leafOf + [leaf];
    }
    forall w | 0 <= w < |nodes| && nodes[w].leafStart.Some?
      ensures 0 <= nodes[w].leafStart.value < |text| && paths[w] == text[nodes[w].leafStart.value..]
    {
      LeafSpellsSuffix(text, nodes, parent, paths, |text|, w);
    }
  }
}
