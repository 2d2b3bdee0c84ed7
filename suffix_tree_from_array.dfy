/**
 * The suffix tree of a text built from its suffix array and LCP array
 * (weeks_3_4/suffix_tree_from_array.py).  The nodes live in a sequence; a
 * child or parent is the index of its node, node 0 is the root.  The
 * suffixes are hung in suffix-array order: the walk climbs from the leaf
 * just added to the deepest node on its path whose string depth is at most
 * the LCP with the next suffix, breaking an edge if that depth falls inside
 * one, and hangs the next leaf there.  Alongside the nodes, paths[v] is the
 * string spelled from the root to v.
 */
module SuffixTreeFromArray {
  import opened StringSpec
  import SuffixTreeSpec

  /**
   * `Node`: the edge text[start..end) into the node, the index stamped in
   * `leaf_start`, the parent, the children by the first symbol of their edge
   * and the string depth.
   */
  datatype TreeNode = TreeNode(start: int, end: int, leafStart: Option<int>, parent: int, children: map<char, int>, depth: int)

  /** `Node()`, the root: no edge (start and end are None in the source, 0 here) and no parent (None, -1 here). */
  const Root := TreeNode(0, 0, None, -1, map[], 0)

  /** l is the length of the longest common prefix of a and b. */
  predicate IsLcp(a: string, b: string, l: int)
  {
    0 <= l <= |a| && l <= |b| && a[..l] == b[..l] && (l < |a| && l < |b| ==> a[l] != b[l])
  }

  /** l is the length of the longest common prefix of the suffixes at a and b. */
  predicate LcpOf(text: string, a: int, b: int, l: int)
  {
    0 <= a <= |text| && 0 <= b <= |text| && IsLcp(Suffix(text, a), Suffix(text, b), l)
  }

  /** lcp[i] is the longest common prefix of the suffixes at sa[i] and sa[i + 1]. */
  predicate LcpArray(text: string, sa: seq<int>, lcp: seq<int>)
  {
    forall i :: 0 <= i < |sa| - 1 && i < |lcp| ==> LcpOf(text, sa[i], sa[i + 1], lcp[i])
  }

  // The shape of the tree.

  /** The entry under c at v leads to a node below v whose edge starts with c. */
  predicate ChildOK(text: string, nodes: seq<TreeNode>, v: int, c: char)
    requires 0 <= v < |nodes| && c in nodes[v].children
  {
    var w := nodes[v].children[c];
    0 < w < |nodes| && nodes[w].parent == v && 0 <= nodes[w].start < |text| && text[nodes[w].start] == c
  }

  /**
   * The edge into w: a non-empty range of text, registered at the parent
   * under its first symbol; the string depth is the parent's plus the edge
   * length, and the string spelled down to w is the parent's followed by
   * the edge.
   */
  predicate EdgeOK(text: string, nodes: seq<TreeNode>, paths: seq<string>, w: int)
    requires 0 < w < |nodes| == |paths|
  {
    var p, s, e := nodes[w].parent, nodes[w].start, nodes[w].end;
    0 <= p < |nodes| && 0 <= s < e <= |text|
    && nodes[w].depth == nodes[p].depth + (e - s)
    && paths[w] == paths[p] + text[s..e] && nodes[w].depth == |paths[w]|
    && text[s] in nodes[p].children && nodes[p].children[text[s]] == w
  }

  /** Every entry of every node leads to a child whose edge starts with the entry's symbol. */
  predicate Children(text: string, nodes: seq<TreeNode>)
  {
    forall v, c :: 0 <= v < |nodes| && c in nodes[v].children ==> ChildOK(text, nodes, v, c)
  }

  /** Every node but the root has a proper edge into it. */
  predicate Edges(text: string, nodes: seq<TreeNode>, paths: seq<string>)
    requires |nodes| == |paths|
  {
    forall w :: 0 < w < |nodes| ==> EdgeOK(text, nodes, paths, w)
  }

  /** nodes is a tree hanging from the root, node 0, and paths[v] is the string spelled from the root to v. */
  predicate Tree(text: string, nodes: seq<TreeNode>, paths: seq<string>)
  {
    |nodes| == |paths| > 0 && nodes[0].parent == -1 && nodes[0].depth == 0 && paths[0] == []
    && Children(text, nodes) && Edges(text, nodes, paths)
  }

  /** p is a prefix of the suffix of text at prev. */
  predicate OnSuffix(text: string, p: string, prev: int)
  {
    0 <= prev && prev + |p| <= |text| && p == text[prev..prev + |p|]
  }

  /** Every key at v is at most the first symbol of the edge into w. */
  predicate KeysBelow(text: string, nodes: seq<TreeNode>, v: int, w: int)
    requires 0 <= v < |nodes| && 0 <= w < |nodes|
  {
    0 <= nodes[w].start < |text| && forall c :: c in nodes[v].children ==> c <= text[nodes[w].start]
  }

  /** The k-th node of chain is a child of the one before it. */
  predicate Link(nodes: seq<TreeNode>, chain: seq<int>, k: int)
  {
    0 < k < |chain| && 0 <= chain[k] < |nodes| && nodes[chain[k]].parent == chain[k - 1]
  }

  /** The b-th node of chain lies deeper than the a-th. */
  predicate Deeper(nodes: seq<TreeNode>, chain: seq<int>, a: int, b: int)
  {
    0 <= a < b < |chain| && 0 <= chain[a] < |nodes| && 0 <= chain[b] < |nodes| && nodes[chain[a]].depth < nodes[chain[b]].depth
  }

  /** chain runs down from the root: each node is the parent of the next and lies deeper. */
  predicate Linked(nodes: seq<TreeNode>, chain: seq<int>)
  {
    |chain| > 0 && chain[0] == 0
    && (forall k :: 0 <= k < |chain| ==> 0 <= chain[k] < |nodes|)
    && (forall k :: 0 < k < |chain| ==> Link(nodes, chain, k))
    && (forall a, b :: 0 <= a < b < |chain| ==> Deeper(nodes, chain, a, b))
  }

  /** The k-th node of chain spells a prefix of the suffix at prev, as long as its string depth. */
  predicate PrefixAt(text: string, nodes: seq<TreeNode>, paths: seq<string>, chain: seq<int>, prev: int, k: int)
    requires |nodes| == |paths|
  {
    0 <= k < |chain| && 0 <= chain[k] < |nodes| && OnSuffix(text, paths[chain[k]], prev) && |paths[chain[k]]| == nodes[chain[k]].depth
  }

  /** Every node of chain spells a prefix of the suffix at prev, as long as its string depth. */
  predicate Prefixes(text: string, nodes: seq<TreeNode>, paths: seq<string>, chain: seq<int>, prev: int)
    requires |nodes| == |paths|
  {
    forall k :: 0 <= k < |chain| ==> PrefixAt(text, nodes, paths, chain, prev, k)
  }

  /** No key at the k-th node of chain is greater than the first symbol of the edge to the next. */
  predicate KeyStep(text: string, nodes: seq<TreeNode>, chain: seq<int>, k: int)
  {
    0 <= k < |chain| - 1 && 0 <= chain[k] < |nodes| && 0 <= chain[k + 1] < |nodes| && KeysBelow(text, nodes, chain[k], chain[k + 1])
  }

  /** No key on chain is greater than the first symbol of the edge the chain goes on with. */
  predicate Ordered(text: string, nodes: seq<TreeNode>, chain: seq<int>)
  {
    forall k :: 0 <= k < |chain| - 1 ==> KeyStep(text, nodes, chain, k)
  }

  /**
   * chain is the path from the root to the leaf of the suffix at prev, the
   * one hung last: it spells prefixes of that suffix, ends in a leaf without
   * children spelling all of it, and every other edge of the tree lies to
   * its left.
   */
  predicate Rightmost(text: string, nodes: seq<TreeNode>, paths: seq<string>, chain: seq<int>, prev: int)
    requires |nodes| == |paths| && 0 <= prev <= |text|
  {
    Linked(nodes, chain) && Prefixes(text, nodes, paths, chain, prev) && Ordered(text, nodes, chain)
    && paths[chain[|chain| - 1]] == text[prev..] && nodes[chain[|chain| - 1]].children == map[]
  }

  /**
   * The suffix at `suffix` comes right after the one at prev with an LCP of
   * l: it agrees with it on l symbols and goes on past them, and where both
   * go on, its next symbol is the greater.
   */
  predicate Follows(text: string, prev: int, suffix: int, l: int)
  {
    0 <= l && 0 <= prev && prev + l <= |text| && 0 <= suffix && suffix + l < |text|
    && text[prev..prev + l] == text[suffix..suffix + l]
    && (prev + l < |text| ==> text[prev + l] < text[suffix + l])
  }

  /** Leaf w carries the leaf stamp i, ends at the end of text and spells the suffix at `suffix`. */
  predicate LeafFor(text: string, nodes: seq<TreeNode>, paths: seq<string>, suffix: int, i: int, w: int)
    requires |nodes| == |paths|
  {
    0 < w < |nodes| && nodes[w].leafStart == Some(i) && nodes[w].end == |text|
    && 0 <= suffix <= |text| && paths[w] == text[suffix..]
  }

  /** leafOf[i] is the leaf of the i-th suffix in suffix-array order. */
  predicate LeafAt(text: string, sa: seq<int>, nodes: seq<TreeNode>, paths: seq<string>, leafOf: seq<int>, i: int)
    requires |nodes| == |paths|
  {
    0 <= i < |leafOf| && i < |sa| && LeafFor(text, nodes, paths, sa[i], i, leafOf[i])
  }

  /** leafOf lists the leaves of the first |leafOf| suffixes in suffix-array order. */
  predicate Leaves(text: string, sa: seq<int>, nodes: seq<TreeNode>, paths: seq<string>, leafOf: seq<int>)
    requires |nodes| == |paths|
  {
    |leafOf| <= |sa| && forall i :: 0 <= i < |leafOf| ==> LeafAt(text, sa, nodes, paths, leafOf, i)
  }

  /** nodes' keeps the leaf stamp and the end of every node of nodes. */
  predicate Kept(nodes: seq<TreeNode>, nodes': seq<TreeNode>)
  {
    |nodes| <= |nodes'| && forall w :: 0 <= w < |nodes| ==> nodes'[w].leafStart == nodes[w].leafStart && nodes'[w].end == nodes[w].end
  }

  /**
   * Node w, not the root, is compact: without children it is one of the
   * leaves listed in leafOf, and otherwise it branches into two or more.
   */
  predicate Branches(nodes: seq<TreeNode>, leafOf: seq<int>, w: int)
    requires 0 <= w < |nodes|
  {
    (nodes[w].children == map[] ==> w in leafOf) && (nodes[w].children != map[] ==> |nodes[w].children| >= 2)
  }

  /** The tree is compact: no node but the root has a single child, and every node without children is a listed leaf. */
  predicate Compact(nodes: seq<TreeNode>, leafOf: seq<int>)
  {
    forall w :: 0 < w < |nodes| ==> Branches(nodes, leafOf, w)
  }

  // The two operations on the nodes.

  /**
   * nodes' is nodes after `create_new_leaf(node, text, suffix, length,
   * leafStart)`: the leaf, node |nodes|, takes the edge from
   * `suffix + node.string_depth` to `length`, the string depth
   * `length - suffix` and the parent node, and node registers it under the
   * first symbol of that edge.
   */
  predicate LeafHung(text: string, nodes: seq<TreeNode>, node: int, suffix: int, length: int, leafStart: int, nodes': seq<TreeNode>)
    requires 0 <= node < |nodes| && 0 <= suffix + nodes[node].depth < |text|
  {
    var s := suffix + nodes[node].depth;
    |nodes'| == |nodes| + 1
    && nodes'[|nodes|] == TreeNode(s, length, Some(leafStart), node, map[], length - suffix)
    && nodes'[node] == nodes[node].(children := nodes[node].children[text[s] := |nodes|])
    && forall w :: 0 <= w < |nodes| && w != node ==> nodes'[w] == nodes[w]
  }

  method CreateNewLeaf(nodes: seq<TreeNode>, text: string, node: int, suffix: int, length: int, leafStart: int)
    returns (nodes': seq<TreeNode>, leaf: int)
    requires 0 <= node < |nodes| && 0 <= suffix + nodes[node].depth < |text|
    ensures leaf == |nodes| && LeafHung(text, nodes, node, suffix, length, leafStart, nodes')
  {
    var newLeaf := TreeNode(suffix + nodes[node].depth, length, Some(leafStart), node, map[], length - suffix);
    leaf := |nodes|;
    nodes' := nodes + [newLeaf];
    nodes' := nodes'[node := nodes'[node].(children := nodes'[node].children[text[newLeaf.start] := leaf])];
  }

  /**
   * nodes' is nodes after `break_edge(node, text, start, offset,
   * leafStart)`: the child c under text[start] moves below mid_node, node
   * |nodes|, which spans text[start..start+offset), has the string depth
   * `node.string_depth + offset`, is stamped with leafStart and keeps c under
   * text[start + offset]; c's edge starts offset symbols later and node's
   * entry leads to mid_node.  When c is node itself, the updates land on the
   * same record, in the source's order.
   */
  predicate EdgeBroken(text: string, nodes: seq<TreeNode>, node: int, start: int, offset: int, leafStart: int, nodes': seq<TreeNode>)
    requires 0 <= node < |nodes| && 0 <= start && 0 <= offset && start + offset < |text|
    requires text[start] in nodes[node].children && 0 <= nodes[node].children[text[start]] < |nodes|
  {
    var c := nodes[node].children[text[start]];
    var mid := |nodes|;
    |nodes'| == |nodes| + 1
    && nodes'[mid] == TreeNode(start, start + offset, Some(leafStart), node, map[text[start + offset] := c], nodes[node].depth + offset)
    && (c != node ==> nodes'[c] == nodes[c].(parent := mid, start := nodes[c].start + offset)
                      && nodes'[node] == nodes[node].(children := nodes[node].children[text[start] := mid]))
    && (c == node ==> nodes'[node] == nodes[node].(parent := mid, start := nodes[node].start + offset,
                                                   children := nodes[node].children[text[start] := mid]))
    && forall w :: 0 <= w < |nodes| && w != node && w != c ==> nodes'[w] == nodes[w]
  }

  method BreakEdge(nodes: seq<TreeNode>, text: string, node: int, start: int, offset: int, leafStart: int)
    returns (nodes': seq<TreeNode>, mid: int)
    requires 0 <= node < |nodes| && 0 <= start && 0 <= offset && start + offset < |text|
    requires text[start] in nodes[node].children && 0 <= nodes[node].children[text[start]] < |nodes|
    ensures mid == |nodes| && EdgeBroken(text, nodes, node, start, offset, leafStart, nodes')
  {
    var startChar := text[start];
    var midChar := text[start + offset];
    mid := |nodes|;
    var child := nodes[node].children[startChar];
    nodes' := nodes + [TreeNode(start, start + offset, Some(leafStart), node, map[midChar := child], nodes[node].depth + offset)];
    nodes' := nodes'[child := nodes'[child].(parent := mid)];
    nodes' := nodes'[child := nodes'[child].(start := nodes'[child].start + offset)];
    nodes' := nodes'[node := nodes'[node].(children := nodes'[node].children[startChar := mid])];
  }

  // Facts about consecutive suffixes.

  /** If a < b and they first differ at d, the symbol of a there is the smaller. */
  lemma DifferenceAt(a: string, b: string, d: int)
    requires Less(a, b) && 0 <= d < |a| && d < |b| && a[..d] == b[..d] && a[d] != b[d]
    ensures a[d] < b[d]
  {
    var k := LessImpliesDifference(a, b);
  }

  /** The first suffix follows the empty string at the end of text. */
  lemma FirstFollows(text: string, sa: seq<int>)
    requires IsSuffixArray(text, sa) && |text| > 0
    ensures Follows(text, |text|, sa[0], 0)
  {
  }

  /** With a true suffix array and LCP array, each suffix follows the one before it. */
  lemma NextFollows(text: string, sa: seq<int>, lcp: seq<int>, i: int)
    requires IsSuffixArray(text, sa) && |lcp| + 1 >= |text| && LcpArray(text, sa, lcp) && 0 < i < |text|
    ensures Follows(text, sa[i - 1], sa[i], lcp[i - 1])
  {
    assert LcpOf(text, sa[i - 1], sa[i], lcp[i - 1]);
    var a, b, l := Suffix(text, sa[i - 1]), Suffix(text, sa[i]), lcp[i - 1];
    assert Less(a, b);
    if l == |b| {
      assert a[..|b|] == b;
      LessProperPrefix(b, a);
      LessAsymmetric(a, b);
    }
    assert text[sa[i - 1]..sa[i - 1] + l] == a[..l];
    assert text[sa[i]..sa[i] + l] == b[..l];
    if sa[i - 1] + l < |text| {
      DifferenceAt(a, b, l);
    }
  }

  /** The first m symbols of two suffixes that agree on l >= m symbols agree. */
  lemma SharedPrefix(text: string, prev: int, suffix: int, l: int, m: int)
    requires Follows(text, prev, suffix, l) && 0 <= m <= l
    ensures text[prev..prev + m] == text[suffix..suffix + m]
  {
    assert text[prev..prev + m] == text[prev..prev + l][..m];
    assert text[suffix..suffix + m] == text[suffix..suffix + l][..m];
  }

  // Facts about the tree and the rightmost path.

  /** The string depth of a node is the length of its string. */
  lemma DepthIsLength(text: string, nodes: seq<TreeNode>, paths: seq<string>, v: int)
    requires Tree(text, nodes, paths) && 0 <= v < |nodes|
    ensures nodes[v].depth == |paths[v]|
  {
    if v > 0 {
      assert EdgeOK(text, nodes, paths, v);
    }
  }

  /** The node on the path at position k spells the first depth symbols of the suffix at prev. */
  lemma OnPath(text: string, nodes: seq<TreeNode>, paths: seq<string>, chain: seq<int>, prev: int, k: int)
    requires Tree(text, nodes, paths) && 0 <= prev <= |text| && Rightmost(text, nodes, paths, chain, prev) && 0 <= k < |chain|
    ensures 0 <= nodes[chain[k]].depth && prev + nodes[chain[k]].depth <= |text|
    ensures paths[chain[k]] == text[prev..prev + nodes[chain[k]].depth]
  {
    assert PrefixAt(text, nodes, paths, chain, prev, k);
    DepthIsLength(text, nodes, paths, chain[k]);
  }

  /**
   * The fork below the node at position k of the path: the next node on the
   * path hangs under the symbol of the suffix at prev that follows the
   * node's depth, and every key of the node is at most that symbol.
   */
  lemma Fork(text: string, nodes: seq<TreeNode>, paths: seq<string>, chain: seq<int>, prev: int, k: int)
    requires Tree(text, nodes, paths) && 0 <= prev <= |text| && Rightmost(text, nodes, paths, chain, prev) && 0 <= k < |chain| - 1
    ensures 0 <= nodes[chain[k]].depth && prev + nodes[chain[k]].depth < |text| && nodes[chain[k]].depth < nodes[chain[k + 1]].depth
    ensures 0 <= nodes[chain[k + 1]].start < |text| && text[nodes[chain[k + 1]].start] == text[prev + nodes[chain[k]].depth]
    ensures text[prev + nodes[chain[k]].depth] in nodes[chain[k]].children
    ensures nodes[chain[k]].children[text[prev + nodes[chain[k]].depth]] == chain[k + 1]
    ensures forall c :: c in nodes[chain[k]].children ==> c <= text[prev + nodes[chain[k]].depth]
  {
    var v, w := chain[k], chain[k + 1];
    assert Link(nodes, chain, k + 1);
    assert EdgeOK(text, nodes, paths, w);
    assert KeyStep(text, nodes, chain, k);
    OnPath(text, nodes, paths, chain, prev, k);
    OnPath(text, nodes, paths, chain, prev, k + 1);
    var d, s := nodes[v].depth, nodes[w].start;
    assert paths[w][d] == text[s];
    assert paths[w][d] == text[prev + d];
  }

  /**
   * After the climb: the node at position k has depth l, so suffix's leaf
   * can hang there: it spells the first l symbols of that suffix, and every
   * key there is smaller than the symbol suffix goes on with.
   */
  lemma HangSite(text: string, nodes: seq<TreeNode>, paths: seq<string>, chain: seq<int>, prev: int, k: int, suffix: int, l: int)
    requires Tree(text, nodes, paths) && 0 <= prev <= |text| && Rightmost(text, nodes, paths, chain, prev)
    requires Follows(text, prev, suffix, l) && 0 <= k < |chain| && nodes[chain[k]].depth == l
    requires k < |chain| - 1 ==> nodes[chain[k + 1]].depth > l
    ensures paths[chain[k]] == text[suffix..suffix + l]
    ensures forall c :: c in nodes[chain[k]].children ==> c < text[suffix + l]
  {
    OnPath(text, nodes, paths, chain, prev, k);
    SharedPrefix(text, prev, suffix, l, l);
    if k < |chain| - 1 {
      Fork(text, nodes, paths, chain, prev, k);
    }
  }

  /**
   * After the climb, when the node at position k lies above depth l: the
   * edge to the next node on the path holds depth l, and `break_edge` finds
   * that node under the symbol of the suffix at prev at the node's depth.
   */
  lemma BreakSite(text: string, nodes: seq<TreeNode>, paths: seq<string>, chain: seq<int>, prev: int, k: int, suffix: int, l: int)
    requires Tree(text, nodes, paths) && 0 <= prev <= |text| && Rightmost(text, nodes, paths, chain, prev)
    requires Follows(text, prev, suffix, l) && 0 <= k < |chain| && nodes[chain[k]].depth < l
    requires k < |chain| - 1 ==> nodes[chain[k + 1]].depth > l
    ensures k < |chain| - 1 && prev + l < |text| && 0 <= nodes[chain[k]].depth
    ensures var d := nodes[chain[k]].depth;
      text[prev + d] in nodes[chain[k]].children && nodes[chain[k]].children[text[prev + d]] == chain[k + 1]
  {
    OnPath(text, nodes, paths, chain, prev, k);
    DepthIsLength(text, nodes, paths, chain[k]);
    Fork(text, nodes, paths, chain, prev, k);
    OnPath(text, nodes, paths, chain, prev, k + 1);
  }

  // Hanging a leaf.

  /** What `create_new_leaf` leaves alone: every old node keeps its parent, edge, depth and stamp. */
  lemma HungFields(text: string, nodes: seq<TreeNode>, node: int, suffix: int, length: int, leafStart: int, nodes': seq<TreeNode>)
    requires 0 <= node < |nodes| && 0 <= suffix + nodes[node].depth < |text|
    requires LeafHung(text, nodes, node, suffix, length, leafStart, nodes')
    ensures Kept(nodes, nodes')
    ensures forall w :: 0 <= w < |nodes| ==> nodes'[w].parent == nodes[w].parent && nodes'[w].start == nodes[w].start && nodes'[w].depth == nodes[w].depth
  {
  }

  /**
   * A leaf hung below node, which spells the first symbols of the suffix at
   * `suffix` and has no entry for the symbol after them, keeps the tree a
   * tree, the leaf spelling that whole suffix.
   */
  lemma HangTree(text: string, nodes: seq<TreeNode>, paths: seq<string>, node: int, suffix: int, leafStart: int, nodes': seq<TreeNode>)
    requires Tree(text, nodes, paths) && 0 <= node < |nodes| && 0 <= suffix && 0 <= nodes[node].depth
    requires suffix + nodes[node].depth < |text| && paths[node] == text[suffix..suffix + nodes[node].depth]
    requires text[suffix + nodes[node].depth] !in nodes[node].children
    requires LeafHung(text, nodes, node, suffix, |text|, leafStart, nodes')
    ensures Tree(text, nodes', paths + [text[suffix..]])
  {
    var paths', n, s := paths + [text[suffix..]], |nodes|, suffix + nodes[node].depth;
    HungFields(text, nodes, node, suffix, |text|, leafStart, nodes');
    forall v, c | 0 <= v < |nodes'| && c in nodes'[v].children
      ensures ChildOK(text, nodes', v, c)
    {
      if v != node || c != text[s] {
        assert ChildOK(text, nodes, v, c);
      }
    }
    forall w | 0 < w < |nodes'|
      ensures EdgeOK(text, nodes', paths', w)
    {
      if w == n {
        DepthIsLength(text, nodes, paths, node);
        assert text[suffix..] == text[suffix..s] + text[s..|text|];
      } else {
        assert EdgeOK(text, nodes, paths, w);
      }
    }
  }

  /** A path down from the root stays one when it is cut short. */
  lemma LinkedPrefix(nodes: seq<TreeNode>, chain: seq<int>, k: int)
    requires Linked(nodes, chain) && 0 <= k < |chain|
    ensures Linked(nodes, chain[..k + 1])
  {
    var head := chain[..k + 1];
    forall j | 0 < j < |head|
      ensures Link(nodes, head, j)
    {
      assert Link(nodes, chain, j);
    }
    forall a, b | 0 <= a < b < |head|
      ensures Deeper(nodes, head, a, b)
    {
      assert Deeper(nodes, chain, a, b);
    }
  }

  /** The keys on a path stay in order when it is cut short. */
  lemma OrderedPrefix(text: string, nodes: seq<TreeNode>, chain: seq<int>, k: int)
    requires Ordered(text, nodes, chain) && 0 <= k < |chain|
    ensures Ordered(text, nodes, chain[..k + 1])
  {
    var head := chain[..k + 1];
    forall j | 0 <= j < k
      ensures KeyStep(text, nodes, head, j)
    {
      assert KeyStep(text, nodes, chain, j);
    }
  }

  /** A path down from the root extended by a deeper child of its last node. */
  lemma LinkedAppend(nodes: seq<TreeNode>, chain: seq<int>, nodes': seq<TreeNode>, w: int)
    requires Linked(nodes, chain) && |nodes| <= |nodes'| && 0 <= w < |nodes'|
    requires forall v :: 0 <= v < |nodes| ==> nodes'[v].depth == nodes[v].depth
    requires forall j :: 0 < j < |chain| ==> nodes'[chain[j]].parent == nodes[chain[j]].parent
    requires nodes'[w].parent == chain[|chain| - 1] && nodes'[w].depth > nodes[chain[|chain| - 1]].depth
    ensures Linked(nodes', chain + [w])
  {
    var chain', last := chain + [w], |chain| - 1;
    forall j | 0 < j < |chain'|
      ensures Link(nodes', chain', j)
    {
      if j < |chain| {
        assert Link(nodes, chain, j);
      }
    }
    forall a, b | 0 <= a < b < |chain'|
      ensures Deeper(nodes', chain', a, b)
    {
      if b < |chain| {
        assert Deeper(nodes, chain, a, b);
      } else if a < last {
        assert Deeper(nodes, chain, a, last);
      }
    }
  }

  /** The nodes of a path no deeper than l spell prefixes of a suffix that agrees with the one at prev on l symbols. */
  lemma PrefixesShift(text: string, nodes: seq<TreeNode>, paths: seq<string>, chain: seq<int>, prev: int, k: int, suffix: int, l: int)
    requires |nodes| == |paths| && Prefixes(text, nodes, paths, chain, prev) && Linked(nodes, chain)
    requires Follows(text, prev, suffix, l) && 0 <= k < |chain| && nodes[chain[k]].depth <= l
    ensures Prefixes(text, nodes, paths, chain[..k + 1], suffix)
  {
    var head := chain[..k + 1];
    forall j | 0 <= j < |head|
      ensures PrefixAt(text, nodes, paths, head, suffix, j)
    {
      assert PrefixAt(text, nodes, paths, chain, prev, j);
      if j < k {
        assert Deeper(nodes, chain, j, k);
      }
      SharedPrefix(text, prev, suffix, l, |paths[chain[j]]|);
    }
  }

  /** A path of prefixes extended by a node spelling another prefix, when the old nodes keep their strings and depths. */
  lemma PrefixesAppend(text: string, nodes: seq<TreeNode>, paths: seq<string>, chain: seq<int>, prev: int,
                       nodes': seq<TreeNode>, paths': seq<string>, w: int)
    requires |nodes| == |paths| && |nodes'| == |paths'| && Prefixes(text, nodes, paths, chain, prev)
    requires |nodes| <= |nodes'| && paths'[..|paths|] == paths
    requires forall v :: 0 <= v < |nodes| ==> nodes'[v].depth == nodes[v].depth
    requires 0 <= w < |nodes'| && OnSuffix(text, paths'[w], prev) && |paths'[w]| == nodes'[w].depth
    ensures Prefixes(text, nodes', paths', chain + [w], prev)
  {
    var chain' := chain + [w];
    forall j | 0 <= j < |chain'|
      ensures PrefixAt(text, nodes', paths', chain', prev, j)
    {
      if j < |chain| {
        assert PrefixAt(text, nodes, paths, chain, prev, j);
        assert paths'[..|paths|][chain[j]] == paths'[chain[j]];
      }
    }
  }

  /**
   * Keys in order along a path extended by w, when the old nodes but the
   * last keep their children and the old edges keep their starts, and no key
   * of the last node is greater than the first symbol of w's edge.
   */
  lemma OrderedAppend(text: string, nodes: seq<TreeNode>, chain: seq<int>, nodes': seq<TreeNode>, w: int)
    requires Ordered(text, nodes, chain) && Linked(nodes, chain) && |nodes| <= |nodes'| && 0 <= w < |nodes'|
    requires forall j :: 0 <= j < |chain| - 1 ==> nodes'[chain[j]].children == nodes[chain[j]].children
    requires forall j :: 0 < j < |chain| ==> nodes'[chain[j]].start == nodes[chain[j]].start
    requires KeysBelow(text, nodes', chain[|chain| - 1], w)
    ensures Ordered(text, nodes', chain + [w])
  {
    var chain' := chain + [w];
    forall j | 0 <= j < |chain'| - 1
      ensures KeyStep(text, nodes', chain', j)
    {
      if j < |chain| - 1 {
        assert KeyStep(text, nodes, chain, j);
      }
    }
  }

  // Breaking an edge.

  /**
   * break_edge's result written out for a child c other than node, with
   * mid_node at index |nodes|.
   */
  predicate BrokenAt(text: string, nodes: seq<TreeNode>, node: int, c: int, start: int, offset: int, leafStart: int, nodes': seq<TreeNode>)
    requires 0 <= node < |nodes| && 0 <= c < |nodes| && 0 <= start && 0 <= offset && start + offset < |text|
  {
    |nodes'| == |nodes| + 1
    && nodes'[|nodes|] == TreeNode(start, start + offset, Some(leafStart), node, map[text[start + offset] := c], nodes[node].depth + offset)
    && nodes'[c] == nodes[c].(parent := |nodes|, start := nodes[c].start + offset)
    && nodes'[node] == nodes[node].(children := nodes[node].children[text[start] := |nodes|])
    && forall w :: 0 <= w < |nodes| && w != node && w != c ==> nodes'[w] == nodes[w]
  }

  /** What `break_edge` leaves alone when the child is not node itself: depths, and the old nodes except the child's edge and parent and node's entry. */
  lemma BrokenFields(text: string, nodes: seq<TreeNode>, node: int, start: int, offset: int, leafStart: int, nodes': seq<TreeNode>)
    requires 0 <= node < |nodes| && 0 <= start && 0 <= offset && start + offset < |text|
    requires text[start] in nodes[node].children && 0 <= nodes[node].children[text[start]] < |nodes|
    requires nodes[node].children[text[start]] != node
    requires EdgeBroken(text, nodes, node, start, offset, leafStart, nodes')
    ensures BrokenAt(text, nodes, node, nodes[node].children[text[start]], start, offset, leafStart, nodes')
    ensures Kept(nodes, nodes')
    ensures forall w :: 0 <= w < |nodes| ==> nodes'[w].depth == nodes[w].depth
    ensures forall w :: 0 <= w < |nodes| && w != nodes[node].children[text[start]] ==>
      nodes'[w].parent == nodes[w].parent && nodes'[w].start == nodes[w].start
    ensures forall w :: 0 <= w < |nodes| && w != node ==> nodes'[w].children == nodes[w].children
  {
  }

  /**
   * After break_edge every entry still leads to a child whose edge starts
   * with its symbol: c's edge now starts offset symbols later, with the
   * symbol mid_node keeps it under.
   */
  lemma BrokenChildren(text: string, nodes: seq<TreeNode>, node: int, c: int, prev: int, d: int, l: int, leafStart: int, nodes': seq<TreeNode>)
    requires 0 <= node < |nodes| && 0 < c < |nodes| && c != node && 0 <= prev && 0 <= d < l && prev + l < |text|
    requires Children(text, nodes) && BrokenAt(text, nodes, node, c, prev + d, l - d, leafStart, nodes')
    requires nodes[c].parent == node && text[prev + d] in nodes[node].children && nodes[node].children[text[prev + d]] == c
    requires 0 <= nodes[c].start + (l - d) < |text| && text[nodes[c].start + (l - d)] == text[prev + l]
    ensures Children(text, nodes')
  {
    var n, start := |nodes|, prev + d;
    forall v, ch | 0 <= v < |nodes'| && ch in nodes'[v].children
      ensures ChildOK(text, nodes', v, ch)
    {
      if v < n && (v != node || ch != text[start]) {
        assert ChildOK(text, nodes, v, ch);
      }
    }
  }

  /** mid_node's edge: it spells the first l symbols of the suffix at prev, node the first d. */
  lemma MidEdge(text: string, nodes': seq<TreeNode>, paths': seq<string>, node: int, n: int, prev: int, d: int, l: int)
    requires 0 <= node < n < |nodes'| == |paths'| && 0 <= prev && 0 <= d < l && prev + l <= |text|
    requires nodes'[n].parent == node && nodes'[n].start == prev + d && nodes'[n].end == prev + l
    requires nodes'[node].depth == d && nodes'[n].depth == d + (l - d)
    requires paths'[node] == text[prev..prev + d] && paths'[n] == text[prev..prev + l]
    requires text[prev + d] in nodes'[node].children && nodes'[node].children[text[prev + d]] == n
    ensures EdgeOK(text, nodes', paths', n)
  {
    assert text[prev..prev + l] == text[prev..prev + d] + text[prev + d..prev + l];
  }

  /** c's shortened edge below mid_node, which spells the first l of the D symbols c spells. */
  lemma LowerEdge(text: string, nodes': seq<TreeNode>, paths': seq<string>, n: int, c: int, prev: int, l: int, D: int)
    requires 0 <= n < |nodes'| == |paths'| && 0 < c < |nodes'| && 0 <= prev && 0 <= l < D && prev + D <= |text|
    requires nodes'[c].parent == n && 0 <= nodes'[c].start < nodes'[c].end <= |text|
    requires text[nodes'[c].start..nodes'[c].end] == text[prev + l..prev + D]
    requires nodes'[n].depth == l && nodes'[c].depth == D
    requires paths'[c] == text[prev..prev + D] && paths'[n] == text[prev..prev + l]
    requires text[nodes'[c].start] in nodes'[n].children && nodes'[n].children[text[nodes'[c].start]] == c
    ensures EdgeOK(text, nodes', paths', c)
  {
    assert text[prev..prev + D] == text[prev..prev + l] + text[prev + l..prev + D];
  }

  /** An edge that keeps its parent, range and depth, and whose parent keeps its depth, string and entry for it. */
  lemma KeptEdge(text: string, nodes: seq<TreeNode>, paths: seq<string>, nodes': seq<TreeNode>, paths': seq<string>, w: int)
    requires 0 < w < |nodes| == |paths| && |nodes'| == |paths'| && |nodes| <= |nodes'| && EdgeOK(text, nodes, paths, w)
    requires nodes'[w].parent == nodes[w].parent && nodes'[w].start == nodes[w].start
    requires nodes'[w].end == nodes[w].end && nodes'[w].depth == nodes[w].depth && paths'[w] == paths[w]
    requires nodes'[nodes[w].parent].depth == nodes[nodes[w].parent].depth && paths'[nodes[w].parent] == paths[nodes[w].parent]
    requires text[nodes[w].start] in nodes'[nodes[w].parent].children && nodes'[nodes[w].parent].children[text[nodes[w].start]] == w
    ensures EdgeOK(text, nodes', paths', w)
  {
  }

  /**
   * The edge text[sc..ec) below a node spelling pn leads to one spelling pc,
   * the first D symbols of the suffix at prev: cut l - d symbols into the
   * edge, what is left spells the symbols from l to D.
   */
  lemma CutSlices(text: string, pc: string, pn: string, sc: int, ec: int, prev: int, d: int, l: int, D: int)
    requires 0 <= prev && 0 <= d < l < D && prev + D <= |text| && 0 <= sc <= ec <= |text|
    requires pc == pn + text[sc..ec] && |pn| == d && |pc| == D && pc == text[prev..prev + D]
    ensures pn == text[prev..prev + d] && 0 <= sc + (l - d) < ec
    ensures text[sc + (l - d)..ec] == text[prev + l..prev + D] && text[sc + (l - d)] == text[prev + l]
  {
    assert pc[..d] == pn;
    assert pc[d..] == text[sc..ec];
    assert text[sc + (l - d)..ec] == text[sc..ec][l - d..];
  }

  /**
   * Breaking the edge from node into c at depth l, where node spells the
   * first d symbols of the suffix at prev and c more than l of them, keeps
   * the tree a tree, mid_node spelling the first l symbols.
   */
  lemma BreakTree(text: string, nodes: seq<TreeNode>, paths: seq<string>, node: int, c: int, prev: int, l: int, leafStart: int,
                  nodes': seq<TreeNode>)
    requires Tree(text, nodes, paths) && 0 <= node < |nodes| && 0 < c < |nodes| && nodes[c].parent == node
    requires 0 <= prev && 0 <= nodes[node].depth < l < nodes[c].depth && prev + nodes[c].depth <= |text|
    requires paths[c] == text[prev..prev + nodes[c].depth]
    requires text[prev + nodes[node].depth] in nodes[node].children && nodes[node].children[text[prev + nodes[node].depth]] == c
    requires c != node && BrokenAt(text, nodes, node, c, prev + nodes[node].depth, l - nodes[node].depth, leafStart, nodes')
    ensures Tree(text, nodes', paths + [text[prev..prev + l]])
  {
    var d := nodes[node].depth;
    assert EdgeOK(text, nodes, paths, c);
    DepthIsLength(text, nodes, paths, node);
    CutSlices(text, paths[c], paths[node], nodes[c].start, nodes[c].end, prev, d, l, nodes[c].depth);
    BrokenChildren(text, nodes, node, c, prev, d, l, leafStart, nodes');
    BrokenEdges(text, nodes, paths, node, c, prev, l, leafStart, nodes');
  }

  /** The edges after break_edge: mid_node's, c's shortened one, and the others as they were. */
  lemma BrokenEdges(text: string, nodes: seq<TreeNode>, paths: seq<string>, node: int, c: int, prev: int, l: int, leafStart: int,
                    nodes': seq<TreeNode>)
    requires |nodes| == |paths| && Edges(text, nodes, paths) && 0 <= node < |nodes| && 0 < c < |nodes| && c != node
    requires 0 <= prev && 0 <= nodes[node].depth < l < nodes[c].depth && prev + nodes[c].depth <= |text|
    requires BrokenAt(text, nodes, node, c, prev + nodes[node].depth, l - nodes[node].depth, leafStart, nodes')
    requires nodes[c].parent == node && 0 <= nodes[c].start + (l - nodes[node].depth) < nodes[c].end <= |text|
    requires text[nodes[c].start + (l - nodes[node].depth)..nodes[c].end] == text[prev + l..prev + nodes[c].depth]
    requires text[nodes[c].start + (l - nodes[node].depth)] == text[prev + l]
    requires paths[c] == text[prev..prev + nodes[c].depth] && paths[node] == text[prev..prev + nodes[node].depth]
    requires text[prev + nodes[node].depth] in nodes[node].children && nodes[node].children[text[prev + nodes[node].depth]] == c
    ensures Edges(text, nodes', paths + [text[prev..prev + l]])
  {
    var d, n, D := nodes[node].depth, |nodes|, nodes[c].depth;
    var paths' := paths + [text[prev..prev + l]];
    forall w | 0 < w < |nodes'|
      ensures EdgeOK(text, nodes', paths', w)
    {
      if w == n {
        MidEdge(text, nodes', paths', node, n, prev, d, l);
      } else if w == c {
        LowerEdge(text, nodes', paths', n, c, prev, l, D);
      } else {
        assert EdgeOK(text, nodes, paths, w);
        KeptEdge(text, nodes, paths, nodes', paths', w);
      }
    }
  }

  /**
   * The first half of case `current.string_depth < lcp_prev`: after the edge
   * below position k of the path is broken, the path up to position k
   * followed by mid_node runs down the new tree along prefixes of the
   * suffix at `suffix`, its keys in order.
   */
  lemma MidChain(text: string, nodes: seq<TreeNode>, paths: seq<string>, chain: seq<int>, prev: int, k: int,
                 suffix: int, l: int, leafStart: int, nodes1: seq<TreeNode>, paths1: seq<string>)
    requires |nodes| == |paths| && 0 <= prev <= |text| && Rightmost(text, nodes, paths, chain, prev)
    requires Follows(text, prev, suffix, l) && 0 <= k < |chain| - 1 && prev + l < |text|
    requires 0 <= nodes[chain[k]].depth < l < nodes[chain[k + 1]].depth
    requires forall c :: c in nodes[chain[k]].children ==> c <= text[prev + nodes[chain[k]].depth]
    requires text[prev + nodes[chain[k]].depth] in nodes[chain[k]].children
    requires nodes[chain[k]].children[text[prev + nodes[chain[k]].depth]] == chain[k + 1]
    requires EdgeBroken(text, nodes, chain[k], prev + nodes[chain[k]].depth, l - nodes[chain[k]].depth, leafStart, nodes1)
    requires paths1 == paths + [text[prev..prev + l]]
    ensures Linked(nodes1, chain[..k + 1] + [|nodes|])
    ensures Prefixes(text, nodes1, paths1, chain[..k + 1] + [|nodes|], suffix)
    ensures Ordered(text, nodes1, chain[..k + 1] + [|nodes|])
  {
    var n, d, head := |nodes|, nodes[chain[k]].depth, chain[..k + 1];
    BrokenFields(text, nodes, chain[k], prev + d, l - d, leafStart, nodes1);
    forall j | 0 <= j < |head|
      ensures head[j] != chain[k + 1] && (j < k ==> head[j] != chain[k])
    {
      assert Deeper(nodes, chain, j, k + 1);
      if j < k {
        assert Deeper(nodes, chain, j, k);
      }
    }
    LinkedPrefix(nodes, chain, k);
    LinkedAppend(nodes, head, nodes1, n);
    PrefixesShift(text, nodes, paths, chain, prev, k, suffix, l);
    SharedPrefix(text, prev, suffix, l, l);
    PrefixesAppend(text, nodes, paths, head, suffix, nodes1, paths1, n);
    OrderedPrefix(text, nodes, chain, k);
    assert KeysBelow(text, nodes1, chain[k], n);
    OrderedAppend(text, nodes, head, nodes1, n);
  }

  /**
   * A leaf hung below the last node of a path of prefixes of the suffix at
   * `suffix`, for the symbol that suffix goes on with when no key there is
   * greater: the path followed by the leaf is the rightmost path of the new
   * tree.
   */
  lemma LeafChain(text: string, nodes: seq<TreeNode>, paths: seq<string>, chain: seq<int>, last: int, suffix: int, leafStart: int,
                  nodes': seq<TreeNode>)
    requires |nodes| == |paths| && Linked(nodes, chain) && Prefixes(text, nodes, paths, chain, suffix) && Ordered(text, nodes, chain)
    requires last == chain[|chain| - 1] && 0 <= suffix <= suffix + nodes[last].depth < |text|
    requires forall c :: c in nodes[last].children ==> c < text[suffix + nodes[last].depth]
    requires LeafHung(text, nodes, last, suffix, |text|, leafStart, nodes')
    ensures Rightmost(text, nodes', paths + [text[suffix..]], chain + [|nodes|], suffix)
  {
    var paths', n := paths + [text[suffix..]], |nodes|;
    HungFields(text, nodes, last, suffix, |text|, leafStart, nodes');
    assert PrefixAt(text, nodes, paths, chain, suffix, |chain| - 1);
    forall j | 0 <= j < |chain| - 1
      ensures chain[j] != last
    {
      assert Deeper(nodes, chain, j, |chain| - 1);
    }
    LinkedAppend(nodes, chain, nodes', n);
    assert text[suffix..] == text[suffix..suffix + |text[suffix..]|];
    PrefixesAppend(text, nodes, paths, chain, suffix, nodes', paths', n);
    assert KeysBelow(text, nodes', last, n);
    OrderedAppend(text, nodes, chain, nodes', n);
  }

  // The leaves.

  /** The leaves found so far stay leaves when nodes keep their stamps and ends and paths only grow. */
  lemma LeavesKept(text: string, sa: seq<int>, nodes: seq<TreeNode>, paths: seq<string>, leafOf: seq<int>,
                   nodes': seq<TreeNode>, paths': seq<string>)
    requires |nodes| == |paths| && |nodes'| == |paths'| && Leaves(text, sa, nodes, paths, leafOf)
    requires Kept(nodes, nodes') && |paths| <= |paths'| && paths'[..|paths|] == paths
    ensures Leaves(text, sa, nodes', paths', leafOf)
  {
    forall i | 0 <= i < |leafOf|
      ensures LeafAt(text, sa, nodes', paths', leafOf, i)
    {
      assert LeafAt(text, sa, nodes, paths, leafOf, i);
      assert paths'[leafOf[i]] == paths'[..|paths|][leafOf[i]];
    }
  }

  /** The leaves found so far, and the one just hung for the next suffix. */
  lemma LeavesGrow(text: string, sa: seq<int>, nodes: seq<TreeNode>, paths: seq<string>, leafOf: seq<int>,
                   nodes': seq<TreeNode>, paths': seq<string>, leaf: int)
    requires |nodes| == |paths| && |nodes'| == |paths'| && Leaves(text, sa, nodes, paths, leafOf) && |leafOf| < |sa|
    requires Kept(nodes, nodes') && |paths| <= |paths'| && paths'[..|paths|] == paths
    requires LeafFor(text, nodes', paths', sa[|leafOf|], |leafOf|, leaf)
    ensures Leaves(text, sa, nodes', paths', leafOf + [leaf])
  {
    LeavesKept(text, sa, nodes, paths, leafOf, nodes', paths');
    var leafOf' := leafOf + [leaf];
    forall i | 0 <= i < |leafOf'|
      ensures LeafAt(text, sa, nodes', paths', leafOf', i)
    {
      if i < |leafOf| {
        assert LeafAt(text, sa, nodes', paths', leafOf, i);
      }
    }
  }

  // Compactness.

  /**
   * With a unique last symbol, the climb never stops at the leaf just hung
   * (unless that is the root): the suffix at prev would then be a prefix of
   * the next suffix, and the last symbol would occur inside it.
   */
  lemma HangNotLeaf(text: string, nodes: seq<TreeNode>, paths: seq<string>, chain: seq<int>, prev: int, k: int, suffix: int, l: int)
    requires Tree(text, nodes, paths) && 0 <= prev <= |text| && Rightmost(text, nodes, paths, chain, prev)
    requires Follows(text, prev, suffix, l) && 0 <= k < |chain| && nodes[chain[k]].depth == l
    requires SuffixTreeSpec.UniqueEnd(text)
    ensures k == 0 || k < |chain| - 1
  {
    if 0 < k && k == |chain| - 1 {
      LeafRepeatsEnd(text, nodes, paths, chain, prev, k, suffix, l);
      assert false;
    }
  }

  /**
   * If the climb stops at the leaf just hung, below the root, that leaf's
   * suffix is a prefix of the next suffix, so the last symbol of text shows
   * up again before the end.
   */
  lemma LeafRepeatsEnd(text: string, nodes: seq<TreeNode>, paths: seq<string>, chain: seq<int>, prev: int, k: int, suffix: int, l: int)
    requires Tree(text, nodes, paths) && 0 <= prev <= |text| && Rightmost(text, nodes, paths, chain, prev)
    requires Follows(text, prev, suffix, l) && 0 < k == |chain| - 1 && nodes[chain[k]].depth == l
    ensures 0 < l && 0 <= suffix + l - 1 < |text| - 1 && text[suffix + l - 1] == text[|text| - 1]
  {
    assert Deeper(nodes, chain, 0, k);
    DepthIsLength(text, nodes, paths, chain[k]);
    assert prev + l == |text|;
    assert text[prev..prev + l][l - 1] == text[|text| - 1];
    assert text[suffix..suffix + l][l - 1] == text[suffix + l - 1];
  }

  /**
   * Hanging a leaf below the root or below a node that already branches
   * keeps the tree compact, the new leaf listed.
   */
  lemma CompactHung(text: string, nodes: seq<TreeNode>, leafOf: seq<int>, node: int, suffix: int, leafStart: int, nodes': seq<TreeNode>)
    requires 0 <= node < |nodes| && 0 <= suffix + nodes[node].depth < |text|
    requires forall c :: c in nodes[node].children ==> c < text[suffix + nodes[node].depth]
    requires LeafHung(text, nodes, node, suffix, |text|, leafStart, nodes')
    requires Compact(nodes, leafOf) && (node == 0 || nodes[node].children != map[])
    ensures Compact(nodes', leafOf + [|nodes|])
  {
    var leafOf' := leafOf + [|nodes|];
    forall w | 0 < w < |nodes'|
      ensures Branches(nodes', leafOf', w)
    {
      if w < |nodes| {
        assert Branches(nodes, leafOf, w);
      }
    }
  }

  /**
   * Breaking an edge and hanging a leaf below mid_node, under a symbol other
   * than the one its lower edge starts with, keeps the tree compact: node
   * keeps its number of children, mid_node gets two and the new leaf is
   * listed.
   */
  lemma CompactBroken(text: string, nodes: seq<TreeNode>, leafOf: seq<int>, node: int, start: int, offset: int, leafStart: int,
                      nodes1: seq<TreeNode>, suffix: int, nodes2: seq<TreeNode>)
    requires 0 <= node < |nodes| && 0 <= start && 0 <= offset && start + offset < |text|
    requires text[start] in nodes[node].children && 0 <= nodes[node].children[text[start]] < |nodes|
    requires nodes[node].children[text[start]] != node
    requires EdgeBroken(text, nodes, node, start, offset, leafStart, nodes1) && Compact(nodes, leafOf)
    requires 0 <= suffix + nodes1[|nodes|].depth < |text|
    requires forall c :: c in nodes1[|nodes|].children ==> c < text[suffix + nodes1[|nodes|].depth]
    requires LeafHung(text, nodes1, |nodes|, suffix, |text|, leafStart, nodes2)
    ensures Compact(nodes2, leafOf + [|nodes1|])
  {
    var leafOf', mid := leafOf + [|nodes1|], |nodes|;
    assert text[start + offset] in nodes1[mid].children;
    forall w | 0 < w < |nodes2|
      ensures Branches(nodes2, leafOf', w)
    {
      if w < |nodes| {
        assert Branches(nodes, leafOf, w);
      }
    }
  }

  // The construction.

  /**
   * Lines 55 and 59-60: the leaf of the i-th suffix is hung below node, the
   * last node of a path of prefixes of that suffix where no key is greater
   * than the symbol the suffix goes on with.  The tree stays a tree, the
   * leaf stamped i spells the suffix, and the path followed by the leaf is
   * the new rightmost path.
   */
  method Attach(text: string, sa: seq<int>, nodes: seq<TreeNode>, ghost paths: seq<string>, ghost leafOf: seq<int>,
                ghost chain: seq<int>, node: int, i: int)
    returns (nodes': seq<TreeNode>, ghost paths': seq<string>, ghost leafOf': seq<int>, ghost chain': seq<int>, leaf: int)
    requires Tree(text, nodes, paths) && Leaves(text, sa, nodes, paths, leafOf) && |leafOf| == i < |sa|
    requires Linked(nodes, chain) && Prefixes(text, nodes, paths, chain, sa[i]) && Ordered(text, nodes, chain)
    requires node == chain[|chain| - 1] && 0 <= sa[i] <= sa[i] + nodes[node].depth < |text|
    requires forall c :: c in nodes[node].children ==> c < text[sa[i] + nodes[node].depth]
    ensures Tree(text, nodes', paths') && |leafOf'| == i + 1 && Leaves(text, sa, nodes', paths', leafOf')
    ensures Rightmost(text, nodes', paths', chain', sa[i]) && leaf == chain'[|chain'| - 1]
    ensures leaf == |nodes| && leafOf' == leafOf + [leaf] && LeafHung(text, nodes, node, sa[i], |text|, i, nodes')
  {
    var suffix := sa[i];
    ghost var s := suffix + nodes[node].depth;
    assert PrefixAt(text, nodes, paths, chain, suffix, |chain| - 1);
    assert text[s] !in nodes[node].children;
    nodes', leaf := CreateNewLeaf(nodes, text, node, suffix, |text|, i);
    paths' := paths + [text[suffix..]];
    HangTree(text, nodes, paths, node, suffix, i, nodes');
    LeafChain(text, nodes, paths, chain, node, suffix, i, nodes');
    HungFields(text, nodes, node, suffix, |text|, i, nodes');
    LeavesGrow(text, sa, nodes, paths, leafOf, nodes', paths', leaf);
    leafOf' := leafOf + [leaf];
    chain' := chain + [leaf];
  }

  /**
   * Lines 54-57: the climb stopped at position k of the path, at a node
   * that spells exactly the LCP with the next suffix, and the leaf of that
   * suffix is hung below it.
   */
  method HangBelow(text: string, sa: seq<int>, nodes: seq<TreeNode>, ghost paths: seq<string>, ghost leafOf: seq<int>,
                   ghost chain: seq<int>, ghost prev: int, ghost k: int, current: int, lcpPrev: int, i: int)
    returns (nodes': seq<TreeNode>, ghost paths': seq<string>, ghost leafOf': seq<int>, ghost chain': seq<int>, leaf: int)
    requires Tree(text, nodes, paths) && Leaves(text, sa, nodes, paths, leafOf) && |leafOf| == i < |sa|
    requires 0 <= prev <= |text| && Rightmost(text, nodes, paths, chain, prev) && Follows(text, prev, sa[i], lcpPrev)
    requires 0 <= k < |chain| && current == chain[k] && nodes[current].depth == lcpPrev
    requires k < |chain| - 1 ==> nodes[chain[k + 1]].depth > lcpPrev
    ensures Tree(text, nodes', paths') && |leafOf'| == i + 1 && Leaves(text, sa, nodes', paths', leafOf')
    ensures Rightmost(text, nodes', paths', chain', sa[i]) && leaf == chain'[|chain'| - 1]
    ensures SuffixTreeSpec.UniqueEnd(text) && Compact(nodes, leafOf) ==> Compact(nodes', leafOf')
  {
    HangSite(text, nodes, paths, chain, prev, k, sa[i], lcpPrev);
    LinkedPrefix(nodes, chain, k);
    PrefixesShift(text, nodes, paths, chain, prev, k, sa[i], lcpPrev);
    OrderedPrefix(text, nodes, chain, k);
    nodes', paths', leafOf', chain', leaf := Attach(text, sa, nodes, paths, leafOf, chain[..k + 1], current, i);
    if SuffixTreeSpec.UniqueEnd(text) && Compact(nodes, leafOf) {
      HangNotLeaf(text, nodes, paths, chain, prev, k, sa[i], lcpPrev);
      if 0 < k {
        Fork(text, nodes, paths, chain, prev, k);
      }
      CompactHung(text, nodes, leafOf, current, sa[i], i, nodes');
    }
  }

  /**
   * Lines 58-60: the climb stopped at position k of the path, at a node
   * above the LCP with the next suffix; the edge to the next node of the
   * path is broken at that depth and the leaf hung below mid_node.
   */
  method BreakAndHang(text: string, sa: seq<int>, nodes: seq<TreeNode>, ghost paths: seq<string>, ghost leafOf: seq<int>,
                      ghost chain: seq<int>, ghost k: int, current: int, lcpPrev: int, i: int)
    returns (nodes': seq<TreeNode>, ghost paths': seq<string>, ghost leafOf': seq<int>, ghost chain': seq<int>, leaf: int)
    requires Tree(text, nodes, paths) && Leaves(text, sa, nodes, paths, leafOf) && |leafOf| == i < |sa| && 0 < i
    requires 0 <= sa[i - 1] <= |text| && Rightmost(text, nodes, paths, chain, sa[i - 1]) && Follows(text, sa[i - 1], sa[i], lcpPrev)
    requires 0 <= k < |chain| && current == chain[k] && nodes[current].depth < lcpPrev
    requires k < |chain| - 1 ==> nodes[chain[k + 1]].depth > lcpPrev
    ensures Tree(text, nodes', paths') && |leafOf'| == i + 1 && Leaves(text, sa, nodes', paths', leafOf')
    ensures Rightmost(text, nodes', paths', chain', sa[i]) && leaf == chain'[|chain'| - 1]
    ensures Compact(nodes, leafOf) ==> Compact(nodes', leafOf')
  {
    var nodes1, mid;
    ghost var paths1, chain1;
    nodes1, paths1, chain1, mid := BreakPath(text, sa, nodes, paths, leafOf, chain, k, current, lcpPrev, i);
    nodes', paths', leafOf', chain', leaf := Attach(text, sa, nodes1, paths1, leafOf, chain1, mid, i);
    if Compact(nodes, leafOf) {
      CompactBroken(text, nodes, leafOf, current, sa[i - 1] + nodes[current].depth, lcpPrev - nodes[current].depth, i,
                    nodes1, sa[i], nodes');
    }
  }

  /**
   * Lines 58-60 up to the new leaf: break the edge below `current` at
   * string depth lcp_prev; the path then runs through the new middle node,
   * which is ready to take the leaf.
   */
  method BreakPath(text: string, sa: seq<int>, nodes: seq<TreeNode>, ghost paths: seq<string>, ghost leafOf: seq<int>,
                   ghost chain: seq<int>, ghost k: int, current: int, lcpPrev: int, i: int)
    returns (nodes1: seq<TreeNode>, ghost paths1: seq<string>, ghost chain1: seq<int>, mid: int)
    requires Tree(text, nodes, paths) && Leaves(text, sa, nodes, paths, leafOf) && |leafOf| == i < |sa| && 0 < i
    requires 0 <= sa[i - 1] <= |text| && Rightmost(text, nodes, paths, chain, sa[i - 1]) && Follows(text, sa[i - 1], sa[i], lcpPrev)
    requires 0 <= k < |chain| && current == chain[k] && nodes[current].depth < lcpPrev
    requires k < |chain| - 1 ==> nodes[chain[k + 1]].depth > lcpPrev
    ensures Tree(text, nodes1, paths1) && Leaves(text, sa, nodes1, paths1, leafOf)
    ensures Linked(nodes1, chain1) && Prefixes(text, nodes1, paths1, chain1, sa[i]) && Ordered(text, nodes1, chain1)
    ensures mid == chain1[|chain1| - 1] && 0 <= sa[i] <= sa[i] + nodes1[mid].depth < |text|
    ensures forall c :: c in nodes1[mid].children ==> c < text[sa[i] + nodes1[mid].depth]
    ensures var start, offset := sa[i - 1] + nodes[current].depth, lcpPrev - nodes[current].depth;
      0 <= start && 0 <= offset && start + offset < |text|
      && text[start] in nodes[current].children && 0 <= nodes[current].children[text[start]] < |nodes|
      && nodes[current].children[text[start]] != current
      && mid == |nodes| && EdgeBroken(text, nodes, current, start, offset, i, nodes1)
  {
    ghost var prev := sa[i - 1];
    BreakSite(text, nodes, paths, chain, prev, k, sa[i], lcpPrev);
    Fork(text, nodes, paths, chain, prev, k);
    OnPath(text, nodes, paths, chain, prev, k + 1);
    var start := sa[i - 1] + nodes[current].depth;
    var offset := lcpPrev - nodes[current].depth;
    nodes1, mid := BreakEdge(nodes, text, current, start, offset, i);
    paths1 := paths + [text[prev..prev + lcpPrev]];
    BrokenFields(text, nodes, current, start, offset, i, nodes1);
    BreakTree(text, nodes, paths, current, chain[k + 1], prev, lcpPrev, i, nodes1);
    MidChain(text, nodes, paths, chain, prev, k, sa[i], lcpPrev, i, nodes1, paths1);
    LeavesKept(text, sa, nodes, paths, leafOf, nodes1, paths1);
    assert nodes1[mid].children == map[text[prev + lcpPrev] := chain[k + 1]];
    chain1 := chain[..k + 1] + [mid];
  }

  /**
   * Lines 52-53: from the last node of a path down from the root, climb to
   * the deepest node on it whose string depth is at most lcpPrev.
   */
  method Climb(nodes: seq<TreeNode>, ghost chain: seq<int>, current: int, lcpPrev: int) returns (node: int, ghost k: int)
    requires Linked(nodes, chain) && nodes[0].depth == 0 && current == chain[|chain| - 1] && 0 <= lcpPrev
    ensures 0 <= k < |chain| && node == chain[k] && 0 <= nodes[node].depth <= lcpPrev
    ensures k < |chain| - 1 ==> nodes[chain[k + 1]].depth > lcpPrev
  {
    node, k := current, |chain| - 1;
    while nodes[node].depth > lcpPrev
      invariant 0 <= k < |chain| && node == chain[k]
      invariant k < |chain| - 1 ==> nodes[chain[k + 1]].depth > lcpPrev
      decreases k
    {
      assert Link(nodes, chain, k);
      node := nodes[node].parent;
      k := k - 1;
    }
    if k > 0 {
      assert Deeper(nodes, chain, 0, k);
    }
  }

  /**
   * One round of the main loop: climb from the last leaf to the deepest node
   * no deeper than lcp_prev, then hang the leaf of the suffix at
   * `suffix_array[i]` below it, breaking an edge first when that node is
   * shallower than lcp_prev.
   */
  method AddSuffix(text: string, sa: seq<int>, nodes: seq<TreeNode>, ghost paths: seq<string>, ghost leafOf: seq<int>,
                   ghost chain: seq<int>, ghost prev: int, current: int, lcpPrev: int, i: int)
    returns (nodes': seq<TreeNode>, ghost paths': seq<string>, ghost leafOf': seq<int>, ghost chain': seq<int>, current': int)
    requires Tree(text, nodes, paths) && Leaves(text, sa, nodes, paths, leafOf) && |leafOf| == i < |sa|
    requires 0 <= prev <= |text| && (0 < i ==> prev == sa[i - 1]) && (i == 0 ==> lcpPrev == 0)
    requires Rightmost(text, nodes, paths, chain, prev) && current == chain[|chain| - 1]
    requires Follows(text, prev, sa[i], lcpPrev)
    ensures Tree(text, nodes', paths') && |leafOf'| == i + 1 && Leaves(text, sa, nodes', paths', leafOf')
    ensures Rightmost(text, nodes', paths', chain', sa[i]) && current' == chain'[|chain'| - 1]
    ensures SuffixTreeSpec.UniqueEnd(text) && Compact(nodes, leafOf) ==> Compact(nodes', leafOf')
  {
    var node, k := Climb(nodes, chain, current, lcpPrev);
    if nodes[node].depth == lcpPrev {
      nodes', paths', leafOf', chain', current' := HangBelow(text, sa, nodes, paths, leafOf, chain, prev, k, node, lcpPrev, i);
    } else {
      nodes', paths', leafOf', chain', current' := BreakAndHang(text, sa, nodes, paths, leafOf, chain, k, node, lcpPrev, i);
    }
  }

  /**
   * `suffix_array_to_suffix_tree(suffix_array, lcp_array, text)`, given the
   * suffix array of text and the LCP of each pair of neighbours in it: the
   * result is a tree of edges into text in which every string depth is the
   * parent's plus the edge length, and the i-th leaf, stamped i, spells the
   * suffix at suffix_array[i].  When the last symbol of text is unique, the
   * tree is also compact: every node but the root has no children and is
   * one of those leaves, or has two or more children.  Without a unique end
   * it need not be: on "AA" the leaf of "AA" hangs below the leaf of "A".
   */
  method SuffixArrayToSuffixTree(sa: seq<int>, lcp: seq<int>, text: string)
    returns (nodes: seq<TreeNode>, ghost paths: seq<string>, ghost leafOf: seq<int>)
    requires IsSuffixArray(text, sa) && |lcp| + 1 >= |text| && LcpArray(text, sa, lcp)
    ensures Tree(text, nodes, paths)
    ensures |leafOf| == |text| && Leaves(text, sa, nodes, paths, leafOf)
    ensures SuffixTreeSpec.UniqueEnd(text) ==> Compact(nodes, leafOf)
  {
    var length := |text|;
    nodes := [Root];
    paths := [[]];
    leafOf := [];
    var lcpPrev := 0;
    var current := 0;
    ghost var chain := [0];
    ghost var prev := |text|;
    Started(sa, text);
    for i := 0 to length
      invariant Built(sa, text, nodes, paths, leafOf, chain, prev, current, lcpPrev, i)
    {
      if i < length - 1 {
        NextFollows(text, sa, lcp, i + 1);
      }
      nodes, paths, leafOf, chain, prev, current, lcpPrev := Round(sa, lcp, text, nodes, paths, leafOf, chain, prev, current, lcpPrev, i);
    }
  }

  /**
   * The state of the main loop before round i: the tree holds the leaves of
   * the first i suffixes in suffix-array order, the rightmost path ends at
   * the last of them (the root before the first), lcp_prev is the LCP of
   * that suffix and the next, and the tree is compact when the last symbol
   * of text is unique.
   */
  predicate Built(sa: seq<int>, text: string, nodes: seq<TreeNode>, paths: seq<string>, leafOf: seq<int>, chain: seq<int>,
                  prev: int, current: int, lcpPrev: int, i: int)
  {
    0 <= i <= |text| == |sa| && Tree(text, nodes, paths)
    && |leafOf| == i && Leaves(text, sa, nodes, paths, leafOf)
    && prev == (if i == 0 then |text| else sa[i - 1]) && 0 <= prev <= |text| && (i == 0 ==> lcpPrev == 0)
    && Rightmost(text, nodes, paths, chain, prev) && current == chain[|chain| - 1]
    && (i < |text| ==> Follows(text, prev, sa[i], lcpPrev))
    && (SuffixTreeSpec.UniqueEnd(text) ==> Compact(nodes, leafOf))
  }

  /** Lines 46-49: the root alone, before the first round. */
  lemma Started(sa: seq<int>, text: string)
    requires IsSuffixArray(text, sa)
    ensures Built(sa, text, [Root], [[]], [], [0], |text|, 0, 0, 0)
  {
    if |text| > 0 {
      FirstFollows(text, sa);
    }
  }

  /** One pass of the loop at lines 50-62, with the LCP of the next pair read at the end. */
  method Round(sa: seq<int>, lcp: seq<int>, text: string, nodes: seq<TreeNode>, ghost paths: seq<string>, ghost leafOf: seq<int>,
               ghost chain: seq<int>, ghost prev: int, current: int, lcpPrev: int, i: int)
    returns (nodes': seq<TreeNode>, ghost paths': seq<string>, ghost leafOf': seq<int>, ghost chain': seq<int>, ghost prev': int,
             current': int, lcpPrev': int)
    requires |lcp| + 1 >= |text| && i < |text| && Built(sa, text, nodes, paths, leafOf, chain, prev, current, lcpPrev, i)
    requires i < |text| - 1 ==> Follows(text, sa[i], sa[i + 1], lcp[i])
    ensures Built(sa, text, nodes', paths', leafOf', chain', prev', current', lcpPrev', i + 1)
  {
    nodes', paths', leafOf', chain', current' := AddSuffix(text, sa, nodes, paths, leafOf, chain, prev, current, lcpPrev, i);
    lcpPrev' := lcpPrev;
    if i < |text| - 1 {
      lcpPrev' := lcp[i];
    }
    prev' := sa[i];
  }
}
