/**
 * The shape of the suffix tree that week_1/suffix_tree.py builds, as
 * predicates over a sequence of nodes: a child is the index of its node,
 * node 0 is the root and the edge into a node is kept in that node as the
 * range text[start..start+length).  Alongside the nodes, parent[v] is the
 * node above v and paths[v] the string spelled from the root to v.
 */
module SuffixTreeSpec {
  import opened StringSpec

  /** `Node`: the children by the first symbol of their edge, the edge into the node, and the suffix a leaf ends. */
  datatype Node = Node(children: map<char, int>, start: int, length: int, leafStart: Option<int>)

  /** `Node()`, the root; it has no edge, its start and length (None in the source) are 0 here. */
  const Root := Node(map[], 0, 0, None)

  /** No symbol but the last equals the last one, as for a text ending in a unique '$'. */
  predicate UniqueEnd(text: string)
  {
    forall k :: 0 <= k < |text| - 1 ==> text[k] != text[|text| - 1]
  }

  /** The edge stored under key c at node v leads to a node below v whose edge starts with c. */
  predicate ChildOK(text: string, nodes: seq<Node>, parent: seq<int>, v: int, c: char)
    requires 0 <= v < |nodes| == |parent| && c in nodes[v].children
  {
    var w := nodes[v].children[c];
    0 < w < |nodes| && parent[w] == v && 0 <= nodes[w].start < |text| && text[nodes[w].start] == c
  }

  /**
   * The edge into node w: a non-empty range of text, registered at the
   * parent under its first symbol; the string spelled from the root to w is
   * the parent's followed by the edge, and it is text[o..e] for the end e of
   * the edge and some o below i, the number of suffixes inserted so far.  An
   * inner node ends before the end of text and has two children or more; a
   * leaf has no children and spells the whole suffix text[leafStart..].
   */
  predicate EdgeOK(text: string, nodes: seq<Node>, parent: seq<int>, paths: seq<string>, i: int, w: int)
    requires 0 < w < |nodes| == |parent| == |paths|
  {
    var p, s, e := parent[w], nodes[w].start, nodes[w].start + nodes[w].length;
    0 <= p < |nodes| && 0 <= s < e <= |text|
    && paths[w] == paths[p] + text[s..e]
    && text[s] in nodes[p].children && nodes[p].children[text[s]] == w
    && |paths[w]| <= e && e - |paths[w]| < i && paths[w] == text[e - |paths[w]|..e]
    && (nodes[w].leafStart.None? ==> e < |text| && |nodes[w].children| >= 2)
    && (nodes[w].leafStart.Some? ==> nodes[w].leafStart.value == e - |paths[w]| && e == |text| && nodes[w].children == map[])
  }

  /**
   * nodes is a suffix tree of the first i suffixes of text: paths[v] is the
   * string spelled from the root to v and parent[v] the node above v.
   */
  predicate Tree(text: string, nodes: seq<Node>, parent: seq<int>, paths: seq<string>, i: int)
  {
    |nodes| == |parent| == |paths| > 0 && paths[0] == [] && nodes[0].leafStart.None?
    && (forall v, c :: 0 <= v < |nodes| && c in nodes[v].children ==> ChildOK(text, nodes, parent, v, c))
    && (forall w :: 0 < w < |nodes| ==> EdgeOK(text, nodes, parent, paths, i, w))
  }

  /**
   * The state of the walk down for suffix i: the tree holds the first i
   * suffixes and current is the root or an inner node spelling text[i..i+j].
   */
  predicate Walking(text: string, nodes: seq<Node>, parent: seq<int>, paths: seq<string>, i: int, current: int, j: int)
  {
    Tree(text, nodes, parent, paths, i) && 0 <= current < |nodes| && nodes[current].leafStart.None?
    && 0 <= i && 0 <= j && i + j < |text| && paths[current] == text[i..i + j]
  }

  /**
   * nodes' is nodes with `new_leaf` hung below current under text[i + j],
   * where no edge started with that symbol.
   */
  predicate LeafAdded(text: string, nodes: seq<Node>, parent: seq<int>, paths: seq<string>, i: int, current: int, j: int,
                      nodes': seq<Node>, parent': seq<int>, paths': seq<string>)
  {
    |nodes| == |parent| == |paths| && 0 <= current < |nodes| && 0 <= i && 0 <= j && i + j < |text|
    && text[i + j] !in nodes[current].children
    && |nodes'| == |nodes| + 1
    && (forall v :: 0 <= v < |nodes| && v != current ==> nodes'[v] == nodes[v])
    && nodes'[current] == nodes[current].(children := nodes[current].children[text[i + j] := |nodes|])
    && nodes'[|nodes|] == Node(map[], i + j, |text| - i - j, Some(i))
    && parent' == parent + [current] && paths' == paths + [text[i..]]
  }

  /**
   * nodes' is nodes with the edge into next split after `overlap` symbols:
   * `new_internal` (node |nodes|) takes the first `overlap` symbols, next
   * keeps the rest below it, and `new_leaf` (node |nodes| + 1) carries the
   * remainder of suffix i.
   */
  predicate EdgeSplit(text: string, nodes: seq<Node>, parent: seq<int>, paths: seq<string>, i: int, current: int, j: int, next: int, overlap: int,
                      nodes': seq<Node>, parent': seq<int>, paths': seq<string>)
  {
    |nodes| == |parent| == |paths| && 0 <= current < |nodes| && 0 < next < |nodes| && current != next
    && 0 <= i && 0 <= j && 0 < overlap < nodes[next].length && i + j + overlap < |text|
    && var s, m := nodes[next].start, |nodes|;
    0 <= s && s + nodes[next].length <= |text|
    && text[s] in nodes[current].children && nodes[current].children[text[s]] == next
    && text[i + j..i + j + overlap] == text[s..s + overlap] && text[i + j + overlap] != text[s + overlap]
    && nodes' == nodes[next := nodes[next].(start := s + overlap, length := nodes[next].length - overlap)]
                     [current := nodes[current].(children := nodes[current].children[text[s] := m])]
                + [Node(map[text[i + j + overlap] := m + 1][text[s + overlap] := next], s, overlap, None),
                   Node(map[], i + j + overlap, |text| - i - j - overlap, Some(i))]
    && parent' == parent[next := m] + [current, m]
    && paths' == paths + [text[i..i + j + overlap], text[i..]]
  }

  /** The state in which the split branch runs: the walk is at current and suffix i parts from the edge into next inside it. */
  predicate BreakAt(text: string, nodes: seq<Node>, parent: seq<int>, paths: seq<string>, i: int, current: int, j: int, next: int, overlap: int)
  {
    Walking(text, nodes, parent, paths, i, current, j) && BreakFacts(text, nodes, i, current, j, next, overlap)
  }

  /** The part of BreakAt that does not speak of the tree's invariant. */
  predicate BreakFacts(text: string, nodes: seq<Node>, i: int, current: int, j: int, next: int, overlap: int)
  {
    0 <= current < |nodes| && 0 <= i + j < |text|
    && text[i + j] in nodes[current].children && next == nodes[current].children[text[i + j]]
    && 0 < next < |nodes| && 0 <= nodes[next].start && 0 < overlap < nodes[next].length
    && i + j + overlap < |text| && nodes[next].start + overlap < |text|
    && text[i + j..i + j + overlap] == text[nodes[next].start..nodes[next].start + overlap]
    && text[i + j + overlap] != text[nodes[next].start + overlap]
  }
}
