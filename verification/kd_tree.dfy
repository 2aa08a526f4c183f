/**
  The static 3-d tree and its construction.

  A node stores the index of one point of the tree's point sequence and
  the axis it splits on; the axis cycles 0, 1, 2 with depth. The build
  starts from the identity permutation of the point indices, selects the
  axis median of the current range into position `(n - 1) / 2`, makes that
  entry the node and recurses on the entries before and after it.

  The tree is an immutable value, so there is no node graph to release:
  rebuilding produces a fresh value computed from the new points alone.
*/
module KdTree {
  import opened Points
  import opened AxisSort

  /** A subtree: empty, or a node holding a point index and its split axis. */
  datatype Tree = Nil | Node(idx: nat, axis: Axis, left: Tree, right: Tree)

  /** The tree object: its own copy of the points and the root node. */
  datatype KdIndex = KdIndex(treePoints: seq<Point>, root: Tree)

  /** The point indices stored in `t`, with multiplicity. */
  function Contents(t: Tree): multiset<nat> {
    match t
    case Nil => multiset{}
    case Node(i, _, l, r) => multiset{i} + Contents(l) + Contents(r)
  }

  /** The number of nodes of `t`. */
  function Size(t: Tree): (n: nat)
    ensures n == |Contents(t)|
  {
    match t
    case Nil => 0
    case Node(_, _, l, r) => 1 + Size(l) + Size(r)
  }

  /** Every node of `t` indexes into `pts`. */
  predicate WellFormed(pts: seq<Point>, t: Tree) {
    match t
    case Nil => true
    case Node(i, _, l, r) => i < |pts| && WellFormed(pts, l) && WellFormed(pts, r)
  }

  /**
    The split invariant: at every node, the points of the left subtree are
    no larger and the points of the right subtree no smaller than the
    node's point on the node's axis.
  */
  predicate SplitOk(pts: seq<Point>, t: Tree) {
    match t
    case Nil => true
    case Node(i, a, l, r) =>
      && i < |pts|
      && (forall j :: j in Contents(l) ==> j < |pts| && Coord(pts[j], a) <= Coord(pts[i], a))
      && (forall j :: j in Contents(r) ==> j < |pts| && Coord(pts[i], a) <= Coord(pts[j], a))
      && SplitOk(pts, l)
      && SplitOk(pts, r)
  }

  /** Every node at depth `d` below a root at depth `depth` splits on `d % 3`. */
  predicate AxesFrom(t: Tree, depth: nat) {
    match t
    case Nil => true
    case Node(_, a, l, r) => a == depth % 3 && AxesFrom(l, depth + 1) && AxesFrom(r, depth + 1)
  }

  /**
    At every node the left subtree is the lower half of the remaining
    range: it has as many nodes as the right one, or one fewer.
  */
  predicate MedianBalanced(t: Tree) {
    match t
    case Nil => true
    case Node(_, _, l, r) =>
      Size(l) <= Size(r) <= Size(l) + 1 && MedianBalanced(l) && MedianBalanced(r)
  }

  lemma {:induction false} SplitOkWellFormed(pts: seq<Point>, t: Tree)
    requires SplitOk(pts, t)
    ensures WellFormed(pts, t)
  {
    match t
    case Nil =>
    case Node(_, _, l, r) =>
      SplitOkWellFormed(pts, l);
      SplitOkWellFormed(pts, r);
  }

  /** A range split around its axis median. */
  datatype Partition = Partition(median: nat, lower: seq<nat>, upper: seq<nat>)

  /**
    The selection step of `BuildRecursive`: `nth_element` on axis `a` puts
    the median at position `(n - 1) / 2`; `lower` is the range before it
    and `upper` the range after it. Together they are the original range,
    and the median's key bounds `lower` from above and `upper` from below.
  */
  function SelectMedian(pts: seq<Point>, s: seq<nat>, a: Axis): (p: Partition)
    requires InRange(pts, s) && |s| > 0
    ensures p.median < |pts| && InRange(pts, p.lower) && InRange(pts, p.upper)
    ensures |p.lower| == (|s| - 1) / 2 && |p.upper| == |s| - |p.lower| - 1
    ensures multiset(s) == multiset{p.median} + multiset(p.lower) + multiset(p.upper)
  {
    var mid := (|s| - 1) / 2;
    var arranged := NthElement(pts, a, s, mid);
    var lo, hi := arranged[..mid], arranged[mid + 1..];
    NthElementParts(pts, a, s, arranged, mid, lo, hi);
    Partition(arranged[mid], lo, hi)
  }

  /** The median's key bounds the lower part from above and the upper part from below. */
  lemma SelectMedianBrackets(pts: seq<Point>, s: seq<nat>, a: Axis)
    requires InRange(pts, s) && |s| > 0
    ensures var p := SelectMedian(pts, s, a);
            && (forall k :: 0 <= k < |p.lower| ==> Key(pts, a, p.lower[k]) <= Key(pts, a, p.median))
            && (forall k :: 0 <= k < |p.upper| ==> Key(pts, a, p.median) <= Key(pts, a, p.upper[k]))
  {
    var mid := (|s| - 1) / 2;
    var arranged := NthElement(pts, a, s, mid);
    NthElementParts(pts, a, s, arranged, mid, arranged[..mid], arranged[mid + 1..]);
  }

  /**
    `BuildRecursive` on the index range `s` at depth `depth`: the empty
    range gives no node; otherwise the axis median becomes the node and
    the ranges before and after it become its children.
  */
  function BuildRecursive(pts: seq<Point>, s: seq<nat>, depth: nat): (t: Tree)
    requires InRange(pts, s)
    ensures Contents(t) == multiset(s)
    ensures t == Nil <==> |s| == 0
    decreases |s|
  {
    if |s| == 0 then Nil
    else
      var axis: Axis := depth % 3;
      var p := SelectMedian(pts, s, axis);
      Node(p.median, axis,
           BuildRecursive(pts, p.lower, depth + 1),
           BuildRecursive(pts, p.upper, depth + 1))
  }

  /**
    The shape of a built subtree: the axis is the depth modulo 3 at every
    node, the root's left child holds the `(n - 1) / 2` entries before the
    median and the right child the `n - (n - 1) / 2 - 1` after it, and so
    at every node the two children differ in size by at most one.
  */
  lemma {:induction false} BuildShape(pts: seq<Point>, s: seq<nat>, depth: nat)
    requires InRange(pts, s)
    ensures var t := BuildRecursive(pts, s, depth);
            && AxesFrom(t, depth)
            && MedianBalanced(t)
            && (t.Node? ==> Size(t.left) == (|s| - 1) / 2 && Size(t.right) == |s| - (|s| - 1) / 2 - 1)
    decreases |s|
  {
    if |s| > 0 {
      var p := SelectMedian(pts, s, depth % 3);
      BuildShape(pts, p.lower, depth + 1);
      BuildShape(pts, p.upper, depth + 1);
    }
  }

  /** A built subtree satisfies the split invariant. */
  lemma {:induction false} BuildSplit(pts: seq<Point>, s: seq<nat>, depth: nat)
    requires InRange(pts, s)
    ensures SplitOk(pts, BuildRecursive(pts, s, depth))
    decreases |s|
  {
    if |s| > 0 {
      var a: Axis := depth % 3;
      var p := SelectMedian(pts, s, a);
      var m, lo, hi := p.median, p.lower, p.upper;
      SelectMedianBrackets(pts, s, a);
      BuildSplit(pts, lo, depth + 1);
      BuildSplit(pts, hi, depth + 1);
      forall j | j in Contents(BuildRecursive(pts, lo, depth + 1))
        ensures j < |pts| && Coord(pts[j], a) <= Coord(pts[m], a)
      {
        assert j in lo;
        var k :| 0 <= k < |lo| && lo[k] == j;
      }
      forall j | j in Contents(BuildRecursive(pts, hi, depth + 1))
        ensures j < |pts| && Coord(pts[m], a) <= Coord(pts[j], a)
      {
        assert j in hi;
        var k :| 0 <= k < |hi| && hi[k] == j;
      }
    }
  }

  /** The identity permutation `[0, 1, ..., n - 1]` (`std::iota`). */
  function Iota(n: nat): (r: seq<nat>)
    ensures |r| == n
    ensures forall i :: 0 <= i < n ==> r[i] == i
  {
    if n == 0 then [] else Iota(n - 1) + [n - 1]
  }

  /** Each of `0 .. n - 1` occurs exactly once in `Iota(n)`, and nothing else does. */
  lemma {:induction false} IotaCounts(n: nat)
    ensures forall i: nat :: multiset(Iota(n))[i] == if i < n then 1 else 0
  {
    if n > 0 {
      IotaCounts(n - 1);
      assert Iota(n) == Iota(n - 1) + [n - 1];
      var last: nat := n - 1;
      assert multiset(Iota(n)) == multiset(Iota(n - 1)) + multiset{last};
      forall i: nat
        ensures multiset(Iota(n))[i] == if i < n then 1 else 0
      {
        assert multiset(Iota(n))[i] == multiset(Iota(n - 1))[i] + multiset{last}[i];
      }
    } else {
      assert Iota(n) == [];
    }
  }

  /** A tree object with no points and no nodes (the default constructor). */
  function Empty(): KdIndex {
    KdIndex([], Nil)
  }

  /**
    `k` is a tree over its own points as the build leaves it: each index
    `0 .. |points| - 1` is stored exactly once and no other index is, the
    split invariant holds, the axes cycle from 0 at the root and every
    node's children are the lower and upper halves of its range.
  */
  ghost predicate Indexes(k: KdIndex) {
    && (forall i: nat :: Contents(k.root)[i] == if i < |k.treePoints| then 1 else 0)
    && SplitOk(k.treePoints, k.root)
    && AxesFrom(k.root, 0)
    && MedianBalanced(k.root)
    && WellFormed(k.treePoints, k.root)
  }

  /**
    `BuildTree`: discards any previous tree, keeps a copy of the points and
    builds the tree over the indices `0 .. |points| - 1` from depth 0.
  */
  function BuildTree(points: seq<Point>): (k: KdIndex)
    ensures k.treePoints == points
    ensures Indexes(k)
  {
    var ids := Iota(|points|);
    IotaCounts(|points|);
    BuildSplit(points, ids, 0);
    SplitOkWellFormed(points, BuildRecursive(points, ids, 0));
    BuildShape(points, ids, 0);
    KdIndex(points, BuildRecursive(points, ids, 0))
  }

  /** A tree over `n` points has `n` nodes. */
  lemma IndexesSize(k: KdIndex)
    requires Indexes(k)
    ensures Size(k.root) == |k.treePoints|
  {
    var n := |k.treePoints|;
    IotaCounts(n);
    assert Contents(k.root) == multiset(Iota(n)) by {
      forall i: nat
        ensures Contents(k.root)[i] == multiset(Iota(n))[i]
      {
      }
    }
  }

  /**
    A balanced tree of three nodes, each index below 3 stored once, is a
    root with two leaf children holding three distinct indices.
  */
  lemma ThreeNodeShape(t: Tree)
    requires Size(t) == 3 && MedianBalanced(t)
    requires forall i: nat :: Contents(t)[i] == if i < 3 then 1 else 0
    ensures t.Node? && t.left.Node? && t.right.Node?
    ensures t.left.left == Nil && t.left.right == Nil && t.right.left == Nil && t.right.right == Nil
    ensures t.idx < 3 && t.left.idx < 3 && t.right.idx < 3
    ensures t.idx != t.left.idx && t.idx != t.right.idx && t.left.idx != t.right.idx
  {
    var Node(i, _, l, r) := t;
    assert Size(l) == 1 && Size(r) == 1;
    var Node(j, _, _, _) := l;
    var Node(k, _, _, _) := r;
    assert Contents(l) == multiset{j};
    assert Contents(r) == multiset{k};
    assert Contents(t) == multiset{i} + multiset{j} + multiset{k};
    assert Contents(t)[i] == 1 && Contents(t)[j] == 1 && Contents(t)[k] == 1;
  }
}
