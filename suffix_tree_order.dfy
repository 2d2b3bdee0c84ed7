/**
 * The suffix array read off the suffix tree (week_2/suffix_array_stree.py):
 * a depth-first walk with an explicit stack that visits the children of
 * each node in ascending order of their keys and collects the `leaf_start`
 * of every leaf.  Its tree comes from the same insertion as build_tree in
 * week_1/suffix_tree.py (SuffixTree.BuildTree).
 */
module SuffixTreeOrder {
  import opened StringSpec
  import opened SuffixTreeSpec
  import opened SuffixTree

  /** c is the least of keys. */
  predicate IsLeast(c: char, keys: set<char>)
  {
    c in keys && forall x :: x in keys ==> c <= x
  }

  lemma {:induction false} LeastExists(keys: set<char>)
    requires keys != {}
    ensures exists c :: IsLeast(c, keys)
    decreases |keys|
  {
    if forall y :: y !in keys {
      assert false;
    }
    var y :| y in keys;
    if keys - {y} == {} {
      forall x | x in keys
        ensures y <= x
      {
        assert x == y || x in keys - {y};
      }
      assert IsLeast(y, keys);
    } else {
      LeastExists(keys - {y});
      var m :| IsLeast(m, keys - {y});
      var least := if y < m then y else m;
      forall x | x in keys
        ensures least <= x
      {
        assert x == y || x in keys - {y};
      }
      assert IsLeast(least, keys);
    }
  }

  /** The least key of a non-empty set. */
  function Least(keys: set<char>): (c: char)
    requires keys != {}
    ensures IsLeast(c, keys)
  {
    LeastExists(keys);
    var c :| IsLeast(c, keys);
    c
  }

  /** The keys in ascending order: the key order of `sorted(node.children.items())`. */
  function SortedKeys(keys: set<char>): seq<char>
    decreases |keys|
  {
    if keys == {} then [] else [Least(keys)] + SortedKeys(keys - {Least(keys)})
  }

  /** SortedKeys lists exactly the keys. */
  lemma {:induction false} SortedKeysMembers(keys: set<char>)
    ensures |SortedKeys(keys)| == |keys|
    ensures forall x :: x in SortedKeys(keys) <==> x in keys
    decreases |keys|
  {
    if keys != {} {
      var c := Least(keys);
      SortedKeysMembers(keys - {c});
    }
  }

  /** SortedKeys is strictly ascending. */
  lemma {:induction false} SortedKeysAscending(keys: set<char>)
    ensures forall a, b :: 0 <= a < b < |SortedKeys(keys)| ==> SortedKeys(keys)[a] < SortedKeys(keys)[b]
    decreases |keys|
  {
    if keys != {} {
      var c := Least(keys);
      var rest := SortedKeys(keys - {c});
      SortedKeysAscending(keys - {c});
      SortedKeysMembers(keys - {c});
      assert SortedKeys(keys) == [c] + rest;
      forall b | 0 <= b < |rest|
        ensures c < rest[b]
      {
        assert rest[b] in rest;
      }
    }
  }

  /** SortedKeys lists every key once, in strictly ascending order. */
  lemma SortedKeysSound(keys: set<char>)
    ensures var r := SortedKeys(keys);
      |r| == |keys| && (forall k :: 0 <= k < |r| ==> r[k] in keys) && (forall c :: c in keys ==> c in r)
      && forall a, b :: 0 <= a < b < |r| ==> r[a] < r[b]
  {
    SortedKeysMembers(keys);
    SortedKeysAscending(keys);
  }

  /** Python's `reversed`. */
  function Reversed<T>(s: seq<T>): seq<T>
  {
    if s == [] then [] else Reversed(s[1..]) + [s[0]]
  }

  /** The k-th element of the reversal is the k-th from the end. */
  lemma {:induction false} ReversedIndex<T>(s: seq<T>)
    ensures |Reversed(s)| == |s| && forall k :: 0 <= k < |s| ==> Reversed(s)[k] == s[|s| - 1 - k]
  {
    if s != [] {
      ReversedIndex(s[1..]);
    }
  }

  lemma {:induction false} ReversedAppend<T>(a: seq<T>, b: seq<T>)
    ensures Reversed(a + b) == Reversed(b) + Reversed(a)
  {
    if a == [] {
      assert a + b == b;
    } else {
      assert (a + b)[0] == a[0] && (a + b)[1..] == a[1..] + b;
      ReversedAppend(a[1..], b);
    }
  }

  lemma {:induction false} ReversedTwice<T>(s: seq<T>)
    ensures Reversed(Reversed(s)) == s
  {
    if s != [] {
      ReversedAppend(Reversed(s[1..]), [s[0]]);
      ReversedTwice(s[1..]);
      assert Reversed([s[0]]) == [s[0]];
      assert [s[0]] + s[1..] == s;
    }
  }

  /** The order in which a walk visits the children of a node: ascending keys, or descending ones. */
  function KeyOrder(keys: set<char>, ascending: bool): seq<char>
  {
    if ascending then SortedKeys(keys) else Reversed(SortedKeys(keys))
  }

  /** A tree returned by SuffixTree.BuildTree, with the ghost parent and path sequences beside it. */
  datatype Shape = Shape(text: string, nodes: seq<Node>, parent: seq<int>, paths: seq<string>)

  /**
   * The facts about a built tree that the walk relies on, each behind its
   * own predicate: the child under key c spells its parent's string followed
   * by c; a leaf has no children and spells its suffix; every node but the
   * root hangs below its parent.
   */
  ghost predicate Walkable(t: Shape)
  {
    |t.nodes| == |t.parent| == |t.paths| > 0 && t.paths[0] == [] && t.nodes[0].leafStart.None?
    && (forall v :: 0 <= v < |t.nodes| ==> |t.paths[v]| <= |t.text|)
    && (forall v, c :: 0 <= v < |t.nodes| ==> ChildBelow(t, v, c))
    && (forall w :: 0 <= w < |t.nodes| ==> LeafEnd(t, w))
    && (forall w :: 0 < w < |t.nodes| ==> Hung(t, w))
  }

  ghost predicate ChildBelow(t: Shape, v: int, c: char)
    requires 0 <= v < |t.nodes| == |t.paths|
  {
    c in t.nodes[v].children ==>
      var w := t.nodes[v].children[c];
      0 < w < |t.nodes| && |t.paths[v]| < |t.paths[w]| && t.paths[w][..|t.paths[v]| + 1] == t.paths[v] + [c]
  }

  ghost predicate LeafEnd(t: Shape, w: int)
    requires 0 <= w < |t.nodes| == |t.paths|
  {
    t.nodes[w].leafStart.Some? ==>
      t.nodes[w].children == map[] && 0 <= t.nodes[w].leafStart.value < |t.text|
      && t.paths[w] == t.text[t.nodes[w].leafStart.value..]
  }

  ghost predicate Hung(t: Shape, w: int)
    requires 0 < w < |t.nodes| == |t.parent|
  {
    var p, s := t.parent[w], t.nodes[w].start;
    0 <= p < |t.nodes| && 0 <= s < |t.text| && t.text[s] in t.nodes[p].children && t.nodes[p].children[t.text[s]] == w
  }

  ghost predicate Built(t: Shape)
  {
    Tree(t.text, t.nodes, t.parent, t.paths, |t.text|)
  }

  /** A built tree is walkable. */
  lemma BuiltWalkable(t: Shape)
    requires Built(t)
    ensures Walkable(t)
  {
    forall v, c | 0 <= v < |t.nodes|
      ensures ChildBelow(t, v, c)
    {
      if c in t.nodes[v].children {
        ChildDeeper(t, v, c);
      }
    }
    forall w | 0 <= w < |t.nodes|
      ensures LeafEnd(t, w) && |t.paths[w]| <= |t.text|
    {
      if w > 0 {
        assert EdgeOK(t.text, t.nodes, t.parent, t.paths, |t.text|, w);
      }
    }
    forall w | 0 < w < |t.nodes|
      ensures Hung(t, w)
    {
      assert EdgeOK(t.text, t.nodes, t.parent, t.paths, |t.text|, w);
    }
  }

  /** The child under key c spells more than v: the string of v followed by c, and then the rest of its edge. */
  lemma ChildDeeper(t: Shape, v: int, c: char)
    requires Built(t) && 0 <= v < |t.nodes| && c in t.nodes[v].children
    ensures var w := t.nodes[v].children[c];
      0 < w < |t.nodes| && |t.paths[v]| < |t.paths[w]| && t.paths[w][..|t.paths[v]| + 1] == t.paths[v] + [c]
  {
    var w := t.nodes[v].children[c];
    assert ChildOK(t.text, t.nodes, t.parent, v, c);
    assert EdgeOK(t.text, t.nodes, t.parent, t.paths, |t.text|, w);
    var s, e := t.nodes[w].start, t.nodes[w].start + t.nodes[w].length;
    assert t.paths[w] == t.paths[v] + t.text[s..e];
    assert t.paths[w][..|t.paths[v]| + 1] == t.paths[v] + [t.text[s]];
  }

  /** w is a node below v: it spells more than v, and no more than the text. */
  predicate Down(t: Shape, v: int, w: int)
  {
    0 <= v < |t.nodes| == |t.paths| && 0 <= w < |t.nodes| && |t.paths[v]| < |t.paths[w]| <= |t.text|
  }

  /** One instance of ChildBelow. */
  lemma Deeper(t: Shape, v: int, c: char)
    requires Walkable(t) && 0 <= v < |t.nodes| && c in t.nodes[v].children
    ensures Down(t, v, t.nodes[v].children[c])
    ensures var w := t.nodes[v].children[c]; t.paths[w][..|t.paths[v]| + 1] == t.paths[v] + [c]
  {
    assert ChildBelow(t, v, c);
  }

  /** Every key in ks leads down from v. */
  lemma KeysDown(t: Shape, v: int, ks: seq<char>)
    requires Walkable(t) && 0 <= v < |t.nodes| && forall k :: 0 <= k < |ks| ==> ks[k] in t.nodes[v].children
    ensures forall k :: 0 <= k < |ks| ==> Down(t, v, t.nodes[v].children[ks[k]])
  {
    forall k | 0 <= k < |ks|
      ensures Down(t, v, t.nodes[v].children[ks[k]])
    {
      Deeper(t, v, ks[k]);
    }
  }

  /**
   * The nodes of the subtree of v in the order of the walk: v, then the
   * subtrees of its children in key order.
   */
  ghost function Visit(t: Shape, v: int, ascending: bool): seq<int>
    requires 0 <= v < |t.nodes| == |t.paths|
    decreases |t.text| - |t.paths[v]|, 2, 0
  {
    [v] + VisitForest(t, v, KeyOrder(t.nodes[v].children.Keys, ascending), ascending)
  }

  /** The subtrees below v under the keys ks, one after the other. */
  ghost function VisitForest(t: Shape, v: int, ks: seq<char>, ascending: bool): seq<int>
    requires 0 <= v < |t.nodes| == |t.paths|
    decreases |t.text| - |t.paths[v]|, 1, |ks|
  {
    if ks == [] then [] else Subtree(t, v, ks[0], ascending) + VisitForest(t, v, ks[1..], ascending)
  }

  /**
   * The subtree below v under key c.  The test that the child lies deeper
   * always holds in a walkable tree; it only makes the recursion visibly
   * finite.
   */
  ghost function Subtree(t: Shape, v: int, c: char, ascending: bool): seq<int>
    requires 0 <= v < |t.nodes| == |t.paths|
    decreases |t.text| - |t.paths[v]|, 0, 0
  {
    var children := t.nodes[v].children;
    if c in children && Down(t, v, children[c]) then Visit(t, children[c], ascending) else []
  }

  /** What a visit of node n appends to `result`: its `leaf_start`, if it has one. */
  function LeafOf(n: Node): seq<int>
  {
    if n.leafStart.Some? then [n.leafStart.value] else []
  }

  /** The leaf start of node v, if any. */
  ghost function LeafAt(t: Shape, v: int): seq<int>
  {
    if 0 <= v < |t.nodes| then LeafOf(t.nodes[v]) else []
  }

  /** The leaf starts of the nodes vs, in order. */
  ghost function Leaves(t: Shape, vs: seq<int>): seq<int>
  {
    if vs == [] then [] else LeafAt(t, vs[0]) + Leaves(t, vs[1..])
  }

  lemma {:induction false} LeavesAppend(t: Shape, a: seq<int>, b: seq<int>)
    ensures Leaves(t, a + b) == Leaves(t, a) + Leaves(t, b)
    decreases |a|
  {
    if a != [] {
      assert (a + b)[0] == a[0] && (a + b)[1..] == a[1..] + b;
      LeavesAppend(t, a[1..], b);
    } else {
      assert a + b == b;
    }
  }

  /** The nodes still to be visited for a stack whose top is its last element. */
  ghost function StackVisit(t: Shape, stack: seq<int>, ascending: bool): seq<int>
    requires |t.nodes| == |t.paths|
  {
    if stack == [] then [] else TopVisit(t, stack[|stack| - 1], ascending) + StackVisit(t, stack[..|stack| - 1], ascending)
  }

  /** The visit of a node on the stack. */
  ghost function TopVisit(t: Shape, top: int, ascending: bool): seq<int>
    requires |t.nodes| == |t.paths|
  {
    if 0 <= top < |t.nodes| then Visit(t, top, ascending) else []
  }

  /** Pushing the child w under keys[k] puts its subtree in front of those pushed before it. */
  lemma PushStep(t: Shape, node: int, keys: seq<char>, k: int, base: seq<int>, stack: seq<int>, w: int, ascending: bool)
    requires 0 <= node < |t.nodes| == |t.paths| && 0 <= k < |keys|
    requires keys[k] in t.nodes[node].children && w == t.nodes[node].children[keys[k]] && Down(t, node, w)
    requires StackVisit(t, stack, ascending) == VisitForest(t, node, Reversed(keys[..k]), ascending) + StackVisit(t, base, ascending)
    ensures StackVisit(t, stack + [w], ascending) == VisitForest(t, node, Reversed(keys[..k + 1]), ascending) + StackVisit(t, base, ascending)
  {
    var c, r := keys[k], Reversed(keys[..k]);
    assert keys[..k + 1] == keys[..k] + [c];
    ReversedAppend(keys[..k], [c]);
    assert Reversed([c]) == [c];
    assert ([c] + r)[0] == c && ([c] + r)[1..] == r;
    assert (stack + [w])[..|stack + [w]| - 1] == stack;
    var x, y, z := Visit(t, w, ascending), VisitForest(t, node, r, ascending), StackVisit(t, base, ascending);
    assert TopVisit(t, w, ascending) == x;
    assert StackVisit(t, stack + [w], ascending) == x + (y + z);
    assert Subtree(t, node, c, ascending) == x;
    assert VisitForest(t, node, [c] + r, ascending) == x + y;
    Assoc(x, y, z);
  }

  /** Pushing the children of node under keys, one after the other, puts their subtrees on top in the reverse order of keys. */
  method PushChildren(nodes: seq<Node>, ghost t: Shape, node: int, keys: seq<char>, ghost ascending: bool, stack: seq<int>)
    returns (stack': seq<int>)
    requires |t.nodes| == |t.paths| && t.nodes == nodes && 0 <= node < |nodes|
    requires forall k :: 0 <= k < |stack| ==> 0 <= stack[k] < |nodes|
    requires forall k :: 0 <= k < |keys| ==> keys[k] in nodes[node].children && Down(t, node, nodes[node].children[keys[k]])
    ensures forall k :: 0 <= k < |stack'| ==> 0 <= stack'[k] < |nodes|
    ensures StackVisit(t, stack', ascending) == VisitForest(t, node, Reversed(keys), ascending) + StackVisit(t, stack, ascending)
  {
    stack' := stack;
    assert keys[..0] == [];
    for k := 0 to |keys|
      invariant forall m :: 0 <= m < |stack'| ==> 0 <= stack'[m] < |nodes|
      invariant StackVisit(t, stack', ascending) == VisitForest(t, node, Reversed(keys[..k]), ascending) + StackVisit(t, stack, ascending)
    {
      var child := nodes[node].children[keys[k]];
      PushStep(t, node, keys, k, stack, stack', child, ascending);
      stack' := stack' + [child];
    }
    assert keys[..|keys|] == keys;
  }

  /** `for _, child in reversed(sorted(node.children.items())): stack.append(child)`. */
  method PushDescending(nodes: seq<Node>, ghost t: Shape, node: int, stack: seq<int>) returns (stack': seq<int>)
    requires Walkable(t) && t.nodes == nodes && 0 <= node < |nodes|
    requires forall k :: 0 <= k < |stack| ==> 0 <= stack[k] < |nodes|
    ensures forall k :: 0 <= k < |stack'| ==> 0 <= stack'[k] < |nodes|
    ensures StackVisit(t, stack', true)
      == VisitForest(t, node, KeyOrder(nodes[node].children.Keys, true), true) + StackVisit(t, stack, true)
  {
    var sorted := SortedKeys(nodes[node].children.Keys);
    SortedKeysSound(nodes[node].children.Keys);
    ReversedIndex(sorted);
    KeysDown(t, node, Reversed(sorted));
    stack' := PushChildren(nodes, t, node, Reversed(sorted), true, stack);
    ReversedTwice(sorted);
  }

  /** `for _, child in sorted(node.children.items()): stack.append(child)`. */
  method PushAscending(nodes: seq<Node>, ghost t: Shape, node: int, stack: seq<int>) returns (stack': seq<int>)
    requires Walkable(t) && t.nodes == nodes && 0 <= node < |nodes|
    requires forall k :: 0 <= k < |stack| ==> 0 <= stack[k] < |nodes|
    ensures forall k :: 0 <= k < |stack'| ==> 0 <= stack'[k] < |nodes|
    ensures StackVisit(t, stack', false)
      == VisitForest(t, node, KeyOrder(nodes[node].children.Keys, false), false) + StackVisit(t, stack, false)
  {
    var sorted := SortedKeys(nodes[node].children.Keys);
    SortedKeysSound(nodes[node].children.Keys);
    KeysDown(t, node, sorted);
    stack' := PushChildren(nodes, t, node, sorted, false, stack);
  }

  /** Popping node and pushing its children in the walk's key order leaves the same nodes to visit. */
  lemma LoopStep(t: Shape, visited: seq<int>, stack: seq<int>, stack': seq<int>, ascending: bool)
    requires |t.nodes| == |t.paths| && |stack| > 0 && 0 <= stack[|stack| - 1] < |t.nodes|
    requires var node := stack[|stack| - 1];
      StackVisit(t, stack', ascending)
      == VisitForest(t, node, KeyOrder(t.nodes[node].children.Keys, ascending), ascending) + StackVisit(t, stack[..|stack| - 1], ascending)
    ensures var node := stack[|stack| - 1];
      (visited + [node]) + StackVisit(t, stack', ascending) == visited + StackVisit(t, stack, ascending)
  {
    var node := stack[|stack| - 1];
    var f, r := VisitForest(t, node, KeyOrder(t.nodes[node].children.Keys, ascending), ascending), StackVisit(t, stack[..|stack| - 1], ascending);
    assert StackVisit(t, stack, ascending) == TopVisit(t, node, ascending) + r;
    assert TopVisit(t, node, ascending) == [node] + f;
    Assoc(visited, [node], f + r);
    Assoc([node], f, r);
  }

  lemma Assoc<T>(a: seq<T>, b: seq<T>, c: seq<T>)
    ensures (a + b) + c == a + (b + c)
  {
  }

  /** The leaf starts of the visited nodes grow by those of the node just visited. */
  lemma VisitedStep(t: Shape, visited: seq<int>, node: int)
    requires 0 <= node < |t.nodes|
    ensures Leaves(t, visited + [node]) == Leaves(t, visited) + LeafOf(t.nodes[node])
  {
    LeavesAppend(t, visited, [node]);
    assert [node][1..] == [];
  }

  /** `_traverse_tree_pre_order`: pop a node, record its leaf start, push its children in descending key order. */
  method TraversePreOrder(nodes: seq<Node>, ghost t: Shape) returns (result: seq<int>)
    requires Walkable(t) && t.nodes == nodes
    ensures result == Leaves(t, Visit(t, 0, true))
  {
    result := [];
    var stack := [0];
    ghost var visited: seq<int> := [];
    while stack != []
      invariant forall k :: 0 <= k < |stack| ==> 0 <= stack[k] < |nodes|
      invariant visited + StackVisit(t, stack, true) == Visit(t, 0, true)
      invariant result == Leaves(t, visited)
      decreases |Visit(t, 0, true)| - |visited|
    {
      var node := stack[|stack| - 1];
      ghost var before := stack;
      stack := stack[..|stack| - 1];
      if nodes[node].leafStart.Some? {
        result := result + [nodes[node].leafStart.value];
      }
      stack := PushDescending(nodes, t, node, stack);
      LoopStep(t, visited, before, stack, true);
      VisitedStep(t, visited, node);
      visited := visited + [node];
    }
    assert visited + [] == visited;
  }

  /** `_traverse_tree_pre_order_`: push the children in ascending key order, then reverse the list of leaf starts. */
  method TraversePreOrderReversed(nodes: seq<Node>, ghost t: Shape) returns (result: seq<int>)
    requires Walkable(t) && t.nodes == nodes
    ensures result == Leaves(t, Visit(t, 0, true))
  {
    result := [];
    var stack := [0];
    ghost var visited: seq<int> := [];
    while stack != []
      invariant forall k :: 0 <= k < |stack| ==> 0 <= stack[k] < |nodes|
      invariant visited + StackVisit(t, stack, false) == Visit(t, 0, false)
      invariant result == Leaves(t, visited)
      decreases |Visit(t, 0, false)| - |visited|
    {
      var node := stack[|stack| - 1];
      ghost var before := stack;
      stack := stack[..|stack| - 1];
      if nodes[node].leafStart.Some? {
        result := result + [nodes[node].leafStart.value];
      }
      stack := PushAscending(nodes, t, node, stack);
      LoopStep(t, visited, before, stack, false);
      VisitedStep(t, visited, node);
      visited := visited + [node];
    }
    assert visited + [] == visited;
    result := Reversed(result);
    DescendingIsReversed(t, 0);
  }

  /** The descending walk meets the leaves in the reverse order of the ascending one. */
  lemma {:induction false} DescendingIsReversed(t: Shape, v: int)
    requires Walkable(t) && 0 <= v < |t.nodes|
    ensures Reversed(Leaves(t, Visit(t, v, false))) == Leaves(t, Visit(t, v, true))
    decreases |t.text| - |t.paths[v]|, 1
  {
    var sorted := SortedKeys(t.nodes[v].children.Keys);
    var down, up := VisitForest(t, v, Reversed(sorted), false), VisitForest(t, v, sorted, true);
    var here := LeafAt(t, v);
    assert Visit(t, v, false) == [v] + down;
    assert Visit(t, v, true) == [v] + up;
    LeavesCons(t, v, down);
    LeavesCons(t, v, up);
    ReversedAppend(here, Leaves(t, down));
    SortedKeysSound(t.nodes[v].children.Keys);
    if t.nodes[v].leafStart.Some? {
      assert LeafEnd(t, v);
      assert sorted == [] && Reversed(sorted) == [];
      assert Reversed(here) == here;
    } else {
      KeysDown(t, v, sorted);
      ForestReversed(t, v, sorted);
      assert here == [];
    }
    assert Reversed(Leaves(t, [v] + down)) == Reversed(Leaves(t, down)) + Reversed(here);
  }

  lemma LeavesCons(t: Shape, v: int, vs: seq<int>)
    ensures Leaves(t, [v] + vs) == LeafAt(t, v) + Leaves(t, vs)
  {
    assert ([v] + vs)[0] == v && ([v] + vs)[1..] == vs;
  }

  lemma {:induction false} ForestReversed(t: Shape, v: int, ks: seq<char>)
    requires Walkable(t) && 0 <= v < |t.nodes|
    requires forall k :: 0 <= k < |ks| ==> ks[k] in t.nodes[v].children && Down(t, v, t.nodes[v].children[ks[k]])
    ensures Reversed(Leaves(t, VisitForest(t, v, Reversed(ks), false))) == Leaves(t, VisitForest(t, v, ks, true))
    decreases |t.text| - |t.paths[v]|, 0, |ks|
  {
    if ks != [] {
      var w := t.nodes[v].children[ks[0]];
      assert Down(t, v, w);
      var rest := ks[1..];
      ReversedIndex(rest);
      assert Reversed(ks) == Reversed(rest) + [ks[0]];
      ForestAppend(t, v, Reversed(rest), [ks[0]], false);
      assert VisitForest(t, v, [ks[0]], false) == Visit(t, w, false);
      var a, b := VisitForest(t, v, Reversed(rest), false), Visit(t, w, false);
      LeavesAppend(t, a, b);
      ReversedAppend(Leaves(t, a), Leaves(t, b));
      ForestReversed(t, v, rest);
      DescendingIsReversed(t, w);
      LeavesAppend(t, Visit(t, w, true), VisitForest(t, v, rest, true));
    }
  }

  lemma {:induction false} ForestAppend(t: Shape, v: int, a: seq<char>, b: seq<char>, ascending: bool)
    requires 0 <= v < |t.nodes| == |t.paths|
    ensures VisitForest(t, v, a + b, ascending) == VisitForest(t, v, a, ascending) + VisitForest(t, v, b, ascending)
    decreases |a|
  {
    if a == [] {
      assert a + b == b;
    } else {
      assert (a + b)[0] == a[0] && (a + b)[1..] == a[1..] + b;
      ForestAppend(t, v, a[1..], b, ascending);
    }
  }

  /** x is a position of the text whose suffix begins with p. */
  ghost predicate Starts(text: string, x: int, p: string)
  {
    0 <= x < |text| && |p| <= |text| - x && text[x..x + |p|] == p
  }

  /** Every suffix named in xs begins with p. */
  ghost predicate AllStart(text: string, xs: seq<int>, p: string)
  {
    forall k :: 0 <= k < |xs| ==> Starts(text, xs[k], p)
  }

  /** Every suffix named in xs begins with p followed by a symbol no smaller than c. */
  ghost predicate NextAtLeast(text: string, xs: seq<int>, p: string, c: char)
  {
    forall k :: 0 <= k < |xs| ==> Starts(text, xs[k], p) && |p| < |text| - xs[k] && c <= text[xs[k] + |p|]
  }

  /** The suffix at x is smaller than the suffix at y. */
  ghost predicate SuffixLess(text: string, x: int, y: int)
  {
    0 <= x <= |text| && 0 <= y <= |text| && Less(Suffix(text, x), Suffix(text, y))
  }

  /** The suffixes named in xs are in strictly increasing order. */
  ghost predicate SuffixSorted(text: string, xs: seq<int>)
  {
    forall a, b :: 0 <= a < b < |xs| ==> SuffixLess(text, xs[a], xs[b])
  }

  /** Every suffix named in xs is smaller than every suffix named in ys. */
  ghost predicate SuffixesBefore(text: string, xs: seq<int>, ys: seq<int>)
  {
    forall i, j :: 0 <= i < |xs| && 0 <= j < |ys| ==> SuffixLess(text, xs[i], ys[j])
  }

  lemma SortedJoin(text: string, xs: seq<int>, ys: seq<int>)
    requires SuffixSorted(text, xs) && SuffixSorted(text, ys) && SuffixesBefore(text, xs, ys)
    ensures SuffixSorted(text, xs + ys)
  {
    var zs := xs + ys;
    forall a, b | 0 <= a < b < |zs|
      ensures SuffixLess(text, zs[a], zs[b])
    {
      if b < |xs| {
        assert zs[a] == xs[a] && zs[b] == xs[b];
      } else if a < |xs| {
        assert zs[a] == xs[a] && zs[b] == ys[b - |xs|];
      } else {
        assert zs[a] == ys[a - |xs|] && zs[b] == ys[b - |xs|];
      }
    }
  }

  lemma AtLeastJoin(text: string, xs: seq<int>, ys: seq<int>, p: string, c: char, d: char)
    requires NextAtLeast(text, xs, p, c) && NextAtLeast(text, ys, p, d) && c <= d
    ensures NextAtLeast(text, xs + ys, p, c)
  {
    var zs := xs + ys;
    forall k | 0 <= k < |zs|
      ensures Starts(text, zs[k], p) && |p| < |text| - zs[k] && c <= text[zs[k] + |p|]
    {
      if k < |xs| {
        assert zs[k] == xs[k];
      } else {
        assert zs[k] == ys[k - |xs|];
      }
    }
  }

  /** A suffix that begins with p + [c] begins with p, followed by c. */
  lemma ExtendedStarts(text: string, xs: seq<int>, p: string, c: char)
    requires AllStart(text, xs, p + [c])
    ensures NextAtLeast(text, xs, p, c)
    ensures forall k :: 0 <= k < |xs| ==> text[xs[k] + |p|] == c
  {
    forall k | 0 <= k < |xs|
      ensures Starts(text, xs[k], p) && |p| < |text| - xs[k] && text[xs[k] + |p|] == c
    {
      var x := xs[k];
      assert Starts(text, x, p + [c]);
      assert text[x..x + |p|] == text[x..x + |p| + 1][..|p|];
      assert text[x + |p|] == text[x..x + |p| + 1][|p|];
    }
  }

  /** Beginning with q implies beginning with any prefix of q. */
  lemma PrefixStarts(text: string, xs: seq<int>, q: string, p: string)
    requires AllStart(text, xs, q) && |p| <= |q| && q[..|p|] == p
    ensures AllStart(text, xs, p)
  {
    forall k | 0 <= k < |xs|
      ensures Starts(text, xs[k], p)
    {
      var x := xs[k];
      assert Starts(text, x, q);
      assert text[x..x + |p|] == text[x..x + |q|][..|p|];
    }
  }

  /** Suffixes that share p and then differ in the next symbol are ordered by that symbol. */
  lemma KeyBefore(text: string, xs: seq<int>, ys: seq<int>, p: string, c: char, d: char)
    requires AllStart(text, xs, p + [c]) && NextAtLeast(text, ys, p, d) && c < d
    ensures SuffixesBefore(text, xs, ys)
  {
    ExtendedStarts(text, xs, p, c);
    forall i, j | 0 <= i < |xs| && 0 <= j < |ys|
      ensures SuffixLess(text, xs[i], ys[j])
    {
      var x, y := xs[i], ys[j];
      assert Starts(text, x, p) && Starts(text, y, p);
      assert Suffix(text, x)[..|p|] == text[x..x + |p|];
      assert Suffix(text, y)[..|p|] == text[y..y + |p|];
      LessAtDifference(Suffix(text, x), Suffix(text, y), |p|);
    }
  }

  /** The leaf starts below v name suffixes that begin with the string of v, in increasing order. */
  lemma {:induction false} VisitSorted(t: Shape, v: int)
    requires Walkable(t) && 0 <= v < |t.nodes|
    ensures AllStart(t.text, Leaves(t, Visit(t, v, true)), t.paths[v])
    ensures SuffixSorted(t.text, Leaves(t, Visit(t, v, true)))
    decreases |t.text| - |t.paths[v]|, 2, 0
  {
    if t.nodes[v].leafStart.Some? {
      LeafSorted(t, v);
    } else {
      InnerSorted(t, v);
    }
  }

  /** A leaf contributes its own start, whose suffix is the string of the leaf. */
  lemma LeafSorted(t: Shape, v: int)
    requires Walkable(t) && 0 <= v < |t.nodes| && t.nodes[v].leafStart.Some?
    ensures AllStart(t.text, Leaves(t, Visit(t, v, true)), t.paths[v])
    ensures SuffixSorted(t.text, Leaves(t, Visit(t, v, true)))
  {
    assert LeafEnd(t, v);
    var x := t.nodes[v].leafStart.value;
    SortedKeysMembers(t.nodes[v].children.Keys);
    assert SortedKeys(t.nodes[v].children.Keys) == [];
    assert Visit(t, v, true) == [v] + [];
    LeavesCons(t, v, []);
    assert Leaves(t, Visit(t, v, true)) == [x];
    assert Starts(t.text, x, t.paths[v]);
  }

  /** An inner node contributes the leaves of its subtrees. */
  lemma {:induction false} InnerSorted(t: Shape, v: int)
    requires Walkable(t) && 0 <= v < |t.nodes| && t.nodes[v].leafStart.None?
    ensures AllStart(t.text, Leaves(t, Visit(t, v, true)), t.paths[v])
    ensures SuffixSorted(t.text, Leaves(t, Visit(t, v, true)))
    decreases |t.text| - |t.paths[v]|, 1, 0
  {
    var sorted := SortedKeys(t.nodes[v].children.Keys);
    var forest := VisitForest(t, v, sorted, true);
    assert Visit(t, v, true) == [v] + forest;
    LeavesCons(t, v, forest);
    assert LeafAt(t, v) == [];
    SortedKeysMembers(t.nodes[v].children.Keys);
    SortedKeysAscending(t.nodes[v].children.Keys);
    KeysDown(t, v, sorted);
    ForestSorted(t, v, sorted);
  }

  /** The same for the subtrees under the ascending keys ks, whose suffixes continue with ks[0] or later keys. */
  lemma {:induction false} ForestSorted(t: Shape, v: int, ks: seq<char>)
    requires Walkable(t) && 0 <= v < |t.nodes|
    requires forall k :: 0 <= k < |ks| ==> ks[k] in t.nodes[v].children && Down(t, v, t.nodes[v].children[ks[k]])
    requires forall a, b :: 0 <= a < b < |ks| ==> ks[a] < ks[b]
    ensures AllStart(t.text, Leaves(t, VisitForest(t, v, ks, true)), t.paths[v])
    ensures SuffixSorted(t.text, Leaves(t, VisitForest(t, v, ks, true)))
    ensures |ks| > 0 ==> NextAtLeast(t.text, Leaves(t, VisitForest(t, v, ks, true)), t.paths[v], ks[0])
    decreases |t.text| - |t.paths[v]|, 0, |ks|
  {
    if ks != [] {
      var p, c := t.paths[v], ks[0];
      var w := t.nodes[v].children[c];
      Deeper(t, v, c);
      assert Subtree(t, v, c, true) == Visit(t, w, true);
      var here, rest := Leaves(t, Visit(t, w, true)), Leaves(t, VisitForest(t, v, ks[1..], true));
      LeavesAppend(t, Visit(t, w, true), VisitForest(t, v, ks[1..], true));
      assert Leaves(t, VisitForest(t, v, ks, true)) == here + rest;
      VisitSorted(t, w);
      PrefixStarts(t.text, here, t.paths[w], p + [c]);
      ExtendedStarts(t.text, here, p, c);
      ForestSorted(t, v, ks[1..]);
      if |ks| > 1 {
        KeyBefore(t.text, here, rest, p, c, ks[1]);
        AtLeastJoin(t.text, here, rest, p, c, ks[1]);
      } else {
        assert rest == [] && here + rest == here;
      }
      SortedJoin(t.text, here, rest);
      AtLeastStarts(t.text, here + rest, p, c);
    }
  }

  lemma AtLeastStarts(text: string, xs: seq<int>, p: string, c: char)
    requires NextAtLeast(text, xs, p, c)
    ensures AllStart(text, xs, p)
  {
  }

  /** A node of the subtree under ks[j] is among the subtrees under ks. */
  lemma {:induction false} ForestHas(t: Shape, v: int, ks: seq<char>, j: int, x: int, ascending: bool)
    requires 0 <= v < |t.nodes| == |t.paths| && 0 <= j < |ks| && x in Subtree(t, v, ks[j], ascending)
    ensures x in VisitForest(t, v, ks, ascending)
    decreases j
  {
    if j > 0 {
      assert ks[1..][j - 1] == ks[j];
      ForestHas(t, v, ks[1..], j - 1, x, ascending);
    }
  }

  /** A node among the subtrees under ks lies in the subtree under one of the keys. */
  lemma {:induction false} ForestMember(t: Shape, v: int, ks: seq<char>, x: int, ascending: bool) returns (j: int)
    requires 0 <= v < |t.nodes| == |t.paths| && x in VisitForest(t, v, ks, ascending)
    ensures 0 <= j < |ks| && x in Subtree(t, v, ks[j], ascending)
    decreases |ks|
  {
    if x in Subtree(t, v, ks[0], ascending) {
      j := 0;
    } else {
      j := ForestMember(t, v, ks[1..], x, ascending);
      j := j + 1;
    }
  }

  /** The subtree of a node of the subtree of v lies within the subtree of v. */
  lemma {:induction false} VisitTransitive(t: Shape, v: int, x: int, y: int, ascending: bool)
    requires 0 <= v < |t.nodes| == |t.paths| && 0 <= x < |t.nodes|
    requires x in Visit(t, v, ascending) && y in Visit(t, x, ascending)
    ensures y in Visit(t, v, ascending)
    decreases |t.text| - |t.paths[v]|
  {
    if x != v {
      var order := KeyOrder(t.nodes[v].children.Keys, ascending);
      var j := ForestMember(t, v, order, x, ascending);
      var w := t.nodes[v].children[order[j]];
      VisitTransitive(t, w, x, y, ascending);
      ForestHas(t, v, order, j, y, ascending);
    }
  }

  /** Every node of a walkable tree is met by the walk from the root. */
  lemma {:induction false} Reached(t: Shape, w: int)
    requires Walkable(t) && 0 <= w < |t.nodes|
    ensures w in Visit(t, 0, true)
    decreases |t.paths[w]|
  {
    if w > 0 {
      assert Hung(t, w);
      var p, c := t.parent[w], t.text[t.nodes[w].start];
      Deeper(t, p, c);
      Reached(t, p);
      var keys := t.nodes[p].children.Keys;
      SortedKeysMembers(keys);
      var j :| 0 <= j < |SortedKeys(keys)| && SortedKeys(keys)[j] == c;
      assert w in Subtree(t, p, c, true);
      ForestHas(t, p, SortedKeys(keys), j, w, true);
      assert w in Visit(t, p, true);
      VisitTransitive(t, 0, p, w, true);
    }
  }

  /** The leaf start of a listed node is among the leaf starts of the list. */
  lemma {:induction false} LeavesHas(t: Shape, vs: seq<int>, w: int, k: int)
    requires w in vs && 0 <= w < |t.nodes| && t.nodes[w].leafStart == Some(k)
    ensures k in Leaves(t, vs)
    decreases |vs|
  {
    if vs[0] != w {
      LeavesHas(t, vs[1..], w, k);
    }
  }

  /** leafOf names, for every position of the text, a leaf labelled with it. */
  predicate LeafFor(t: Shape, leafOf: seq<int>)
  {
    |leafOf| == |t.text| && forall k :: 0 <= k < |t.text| ==> 0 <= leafOf[k] < |t.nodes| && t.nodes[leafOf[k]].leafStart == Some(k)
  }

  /**
   * The walk of a walkable tree with a leaf for every position lists every
   * position once, in increasing order of suffixes: the suffix array.
   */
  lemma WalkIsSuffixArray(t: Shape, leafOf: seq<int>)
    requires Walkable(t) && LeafFor(t, leafOf)
    ensures IsSuffixArray(t.text, Leaves(t, Visit(t, 0, true)))
  {
    var n, sa := |t.text|, Leaves(t, Visit(t, 0, true));
    VisitSorted(t, 0);
    forall k | 0 <= k < n
      ensures k in sa
    {
      Reached(t, leafOf[k]);
      LeavesHas(t, Visit(t, 0, true), leafOf[k], k);
    }
    SortedDistinct(t.text, sa);
    CoveringLength(sa, n);
  }

  /** Strictly increasing suffixes are distinct positions. */
  lemma SortedDistinct(text: string, sa: seq<int>)
    requires AllStart(text, sa, []) && SuffixSorted(text, sa)
    ensures forall i :: 0 <= i < |sa| ==> 0 <= sa[i] < |text|
    ensures forall i, j :: 0 <= i < j < |sa| ==> sa[i] != sa[j]
  {
    forall i | 0 <= i < |sa|
      ensures 0 <= sa[i] < |text|
    {
      assert Starts(text, sa[i], []);
    }
    forall i, j | 0 <= i < j < |sa|
      ensures sa[i] != sa[j]
    {
      if sa[i] == sa[j] {
        assert SuffixLess(text, sa[i], sa[j]);
        LessIrreflexive(Suffix(text, sa[i]));
      }
    }
  }

  /** Distinct values below n that include every value below n are exactly n of them. */
  lemma CoveringLength(sa: seq<int>, n: nat)
    requires forall i :: 0 <= i < |sa| ==> 0 <= sa[i] < n
    requires forall i, j :: 0 <= i < j < |sa| ==> sa[i] != sa[j]
    requires forall k :: 0 <= k < n ==> k in sa
    ensures |sa| == n
  {
    var ids := seq(n, k => k);
    DistinctImageCard(sa);
    DistinctImageCard(ids);
    var image := set i | 0 <= i < |sa| :: sa[i];
    var range := set i | 0 <= i < n :: ids[i];
    forall x | x in range
      ensures x in image
    {
      var i :| 0 <= i < n && ids[i] == x;
      assert x in sa;
    }
    forall x | x in image
      ensures x in range
    {
      var i :| 0 <= i < |sa| && sa[i] == x;
      assert ids[x] == x;
    }
    assert image == range;
  }

  /** `build_suffix_array`: build the suffix tree, then walk it. */
  method BuildSuffixArray(text: string) returns (result: seq<int>)
    requires UniqueEnd(text)
    ensures IsSuffixArray(text, result)
  {
    var nodes;
    ghost var parent, paths, leafOf;
    nodes, parent, paths, leafOf := BuildTree(text);
    ghost var t := Shape(text, nodes, parent, paths);
    BuiltWalkable(t);
    result := TraversePreOrder(nodes, t);
    WalkIsSuffixArray(t, leafOf);
  }
}
