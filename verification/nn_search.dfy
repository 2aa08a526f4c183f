/**
  Nearest-neighbour search over a built tree.

  The search is a depth-first branch and bound: at each node it measures
  the node's point and keeps it when strictly better than the best so far,
  descends first into the child on the query's side of the split, and
  enters the other child only while the query's gap to the split plane,
  on the node's axis, is below the best distance found so far.

  The tree's `distance` is the square root of the squared distance
  truncated to an integer, so the search minimises that truncated value.
  The search is written once over a `Metric`: `Truncated` is the measure
  the tree uses; `Squared` is the exact squared distance with the gap
  squared before the comparison, which is what the truncating measure
  falls short of (see the lemma `TruncationPicksFartherPoint`).
*/
module NnSearch {
  import opened Wrappers
  import opened Points
  import opened KdTree

  /** The quantity the search minimises. */
  datatype Metric =
    | Truncated   // the tree's `distance`: the truncated square root
    | Squared     // the exact squared Euclidean distance

  /** The measure of `p` seen from the query `q`. */
  function Measure(m: Metric, q: Point, p: Point): nat {
    match m
    case Truncated => Distance(q, p)
    case Squared => SqDist(q, p)
  }

  /** What the far-side test compares with the best distance, for an axis gap `diff`. */
  function PruneKey(m: Metric, diff: nat): nat {
    match m
    case Truncated => diff
    case Squared => diff * diff
  }

  /**
    The search state: the best index so far (`Guess`, unassigned until a
    node improves on the starting bound) and its measure (`MinDist`).
  */
  datatype Best = Best(guess: Option<nat>, minDist: int)

  /** The state `nnSearch` starts from: no guess, best distance `INT_MAX`. */
  const Start: Best := Best(None, INT_MAX)

  /**
    `r` is what a search may leave after starting from `st`: the best
    distance never grows, and if the state changed at all it strictly
    improved to an index of `pts` whose measure it records.
  */
  predicate Improves(m: Metric, pts: seq<Point>, q: Point, st: Best, r: Best) {
    && r.minDist <= st.minDist
    && (|| r == st
        || (&& r.minDist < st.minDist
            && r.guess.Some?
            && r.guess.value < |pts|
            && r.minDist == Measure(m, q, pts[r.guess.value])))
  }

  /**
    `nnSearchRecursive`: the state after searching subtree `t` from state
    `st`. At a node the search goes first into the child on the query's
    side of the split (`Dir`) and then considers the other one (`!Dir`).
  */
  function SearchRec(m: Metric, pts: seq<Point>, q: Point, t: Tree, st: Best): (r: Best)
    requires WellFormed(pts, t)
    ensures Improves(m, pts, q, st, r)
    decreases Size(t), 1
  {
    match t
    case Nil => st
    case Node(i, a, l, rt) =>
      if Coord(q, a) < Coord(pts[i], a) then SearchNode(m, pts, q, i, a, l, rt, st)
      else SearchNode(m, pts, q, i, a, rt, l, st)
  }

  /**
    The body of `nnSearchRecursive` at node `i` with split axis `a`, near
    child `near` and far child `far`: keep the node when its measure is
    strictly below the best, search the near child, then search the far
    child only if the query's gap to the split plane is still below the
    best distance.
  */
  function SearchNode(m: Metric, pts: seq<Point>, q: Point, i: nat, a: Axis, near: Tree, far: Tree, st: Best)
    : (r: Best)
    requires i < |pts| && WellFormed(pts, near) && WellFormed(pts, far)
    ensures Improves(m, pts, q, st, r)
    decreases Size(near) + Size(far) + 1, 0
  {
    var d := Measure(m, q, pts[i]);
    var s1 := if d < st.minDist then Best(Some(i), d) else st;
    var s2 := SearchRec(m, pts, q, near, s1);
    var diff := Abs(Coord(q, a) - Coord(pts[i], a));
    if PruneKey(m, diff) < s2.minDist then SearchRec(m, pts, q, far, s2) else s2
  }

  /**
    `p` lies on the far side of the split plane through `t` on axis `a`
    as the search sees it from `q`: the search goes left when `q` is below
    `t` on that axis, so the far side is then the side of the larger
    coordinates, and otherwise the side of the smaller.
  */
  predicate Across(q: Point, t: Point, p: Point, a: Axis) {
    if Coord(q, a) < Coord(t, a) then Coord(t, a) <= Coord(p, a) else Coord(p, a) <= Coord(t, a)
  }

  /**
    The far-side test is safe: a point `p` on the other side of the split
    plane through `t` (on axis `a`) from the query `q` measures at least
    the prune key of the query's gap to the plane. So when that key is not
    below the best distance, no point of the skipped subtree is strictly
    better.
  */
  lemma PruneIsSafe(m: Metric, q: Point, t: Point, p: Point, a: Axis)
    requires Across(q, t, p, a)
    ensures PruneKey(m, Abs(Coord(q, a) - Coord(t, a))) <= Measure(m, q, p)
  {
    var diff := Abs(Coord(q, a) - Coord(t, a));
    var gap := Abs(Coord(q, a) - Coord(p, a));
    SquareMonotone(diff, gap);
    SqDistBounds(q, p, a);
    assert gap * gap == Square(Coord(q, a) - Coord(p, a));
    assert diff * diff <= SqDist(q, p);
    if m == Truncated {
      ISqrtOfSquare(diff);
      ISqrtMonotone(diff * diff, SqDist(q, p));
    }
  }

  /**
    Branch and bound loses nothing: after searching `t`, the best distance
    is no larger than the measure of any point `j` stored in `t`.
  */
  lemma {:induction false} SearchRecMinimal(m: Metric, pts: seq<Point>, q: Point, t: Tree, st: Best, j: nat)
    requires WellFormed(pts, t) && SplitOk(pts, t) && j in Contents(t)
    ensures j < |pts| && SearchRec(m, pts, q, t, st).minDist <= Measure(m, q, pts[j])
    decreases Size(t), 1
  {
    match t
    case Node(i, a, l, rt) =>
      SplitAcross(pts, q, t, j);
      var goLeft := Coord(q, a) < Coord(pts[i], a);
      var near, far := if goLeft then l else rt, if goLeft then rt else l;
      assert SearchRec(m, pts, q, t, st) == SearchNode(m, pts, q, i, a, near, far, st);
      SearchNodeMinimal(m, pts, q, i, a, near, far, st, j);
  }

  /**
    What the split invariant at a node gives the search: both children
    keep it, and a point of the child the search visits second lies across
    the node's split plane from the query.
  */
  lemma SplitAcross(pts: seq<Point>, q: Point, t: Tree, j: nat)
    requires t.Node? && SplitOk(pts, t) && j in Contents(t)
    ensures t.idx < |pts| && j < |pts| && SplitOk(pts, t.left) && SplitOk(pts, t.right)
    ensures var far := if Coord(q, t.axis) < Coord(pts[t.idx], t.axis) then t.right else t.left;
            j in Contents(far) ==> Across(q, pts[t.idx], pts[j], t.axis)
  {
  }

  /**
    The steps of `SearchNode` as the proofs use them: the best distance
    never grows from the node's own measure through the near search to
    the result, and the result is the far search exactly when the far-side
    test passes.
  */
  lemma SearchNodeSteps(m: Metric, pts: seq<Point>, q: Point, i: nat, a: Axis, near: Tree, far: Tree, st: Best)
    requires i < |pts| && WellFormed(pts, near) && WellFormed(pts, far)
    ensures var d := Measure(m, q, pts[i]);
            var s1 := if d < st.minDist then Best(Some(i), d) else st;
            var s2 := SearchRec(m, pts, q, near, s1);
            var r := SearchNode(m, pts, q, i, a, near, far, st);
            && r.minDist <= s2.minDist <= s1.minDist <= d
            && (PruneKey(m, Abs(Coord(q, a) - Coord(pts[i], a))) < s2.minDist ==> r == SearchRec(m, pts, q, far, s2))
            && (PruneKey(m, Abs(Coord(q, a) - Coord(pts[i], a))) >= s2.minDist ==> r == s2)
  {
    var d := Measure(m, q, pts[i]);
    var s1 := if d < st.minDist then Best(Some(i), d) else st;
    var s2 := SearchRec(m, pts, q, near, s1);
    var key := PruneKey(m, Abs(Coord(q, a) - Coord(pts[i], a)));
    var r := SearchNode(m, pts, q, i, a, near, far, st);
    assert r == if key < s2.minDist then SearchRec(m, pts, q, far, s2) else s2;
    assert s2.minDist <= s1.minDist;
    if key < s2.minDist {
      assert r.minDist <= s2.minDist;
    }
  }

  /**
    `SearchRecMinimal` for one node `i`: the point `j` is the node or lies
    in one of its children, and if it lies in the far child it lies across
    the split plane from the query.
  */
  lemma {:induction false} SearchNodeMinimal(m: Metric, pts: seq<Point>, q: Point, i: nat, a: Axis,
                                             near: Tree, far: Tree, st: Best, j: nat)
    requires i < |pts| && WellFormed(pts, near) && WellFormed(pts, far)
    requires SplitOk(pts, near) && SplitOk(pts, far)
    requires j in multiset{i} + Contents(near) + Contents(far)
    requires j in Contents(far) ==> j < |pts| && Across(q, pts[i], pts[j], a)
    ensures j < |pts| && SearchNode(m, pts, q, i, a, near, far, st).minDist <= Measure(m, q, pts[j])
    decreases Size(near) + Size(far) + 1, 0
  {
    var d := Measure(m, q, pts[i]);
    var s1 := if d < st.minDist then Best(Some(i), d) else st;
    var s2 := SearchRec(m, pts, q, near, s1);
    var key := PruneKey(m, Abs(Coord(q, a) - Coord(pts[i], a)));
    SearchNodeSteps(m, pts, q, i, a, near, far, st);
    if j in Contents(near) {
      SearchRecMinimal(m, pts, q, near, s1, j);
    } else if j in Contents(far) {
      if key < s2.minDist {
        SearchRecMinimal(m, pts, q, far, s2, j);
      } else {
        PruneIsSafe(m, q, pts[i], pts[j], a);
      }
    }
  }

  /**
    On a tree over a non-empty point sequence whose measures from `q` all
    lie below `INT_MAX`, the search assigns a guess, that guess indexes
    the points, the reported distance is its measure, and no point
    measures less.
  */
  lemma SearchFindsNearest(m: Metric, k: KdIndex, q: Point)
    requires Indexes(k) && |k.treePoints| > 0
    requires forall j :: 0 <= j < |k.treePoints| ==> Measure(m, q, k.treePoints[j]) < INT_MAX
    ensures var r := SearchRec(m, k.treePoints, q, k.root, Start);
            && r.guess.Some?
            && r.guess.value < |k.treePoints|
            && r.minDist == Measure(m, q, k.treePoints[r.guess.value])
            && (forall j :: 0 <= j < |k.treePoints| ==> r.minDist <= Measure(m, q, k.treePoints[j]))
  {
    var r := SearchRec(m, k.treePoints, q, k.root, Start);
    SearchBelowAll(m, k, q);
    assert r.minDist < INT_MAX by {
      assert r.minDist <= Measure(m, q, k.treePoints[0]);
    }
    assert r != Start;
  }

  /** The search from `Start` ends no worse than any stored point. */
  lemma SearchBelowAll(m: Metric, k: KdIndex, q: Point)
    requires Indexes(k)
    ensures forall j :: 0 <= j < |k.treePoints| ==>
              SearchRec(m, k.treePoints, q, k.root, Start).minDist <= Measure(m, q, k.treePoints[j])
  {
    forall j | 0 <= j < |k.treePoints|
      ensures SearchRec(m, k.treePoints, q, k.root, Start).minDist <= Measure(m, q, k.treePoints[j])
    {
      assert Contents(k.root)[j] == 1;
      SearchRecMinimal(m, k.treePoints, q, k.root, Start, j);
    }
  }

  /**
    `nnSearch`: the search from the root with no guess and best distance
    `INT_MAX`. On a tree with no nodes nothing is visited, so no guess is
    ever assigned; whatever guess is assigned indexes the points and the
    reported distance is the truncated distance to it.
  */
  function NnSearch(k: KdIndex, q: Point): (r: Best)
    requires WellFormed(k.treePoints, k.root)
    ensures k.root == Nil ==> r.guess == None && r.minDist == INT_MAX
    ensures r.guess.Some? ==>
              r.guess.value < |k.treePoints| && r.minDist == Distance(q, k.treePoints[r.guess.value])
  {
    SearchRec(Truncated, k.treePoints, q, k.root, Start)
  }

  /** Every squared distance from `q` to the points fits in a 32-bit `int`. */
  predicate FitsInt(points: seq<Point>, q: Point) {
    forall j :: 0 <= j < |points| ==> SqDist(q, points[j]) <= INT_MAX
  }

  /**
    Correctness of `nnSearch` on a built tree: the guess is an index of the
    points, `MinDist` is the truncated distance to it, and no point has a
    smaller truncated distance. (It need not have the smallest squared
    distance: see `TruncationPicksFartherPoint`.)
  */
  lemma NnSearchFindsNearest(k: KdIndex, q: Point)
    requires Indexes(k) && |k.treePoints| > 0 && FitsInt(k.treePoints, q)
    ensures var r := NnSearch(k, q);
            && r.guess.Some?
            && r.guess.value < |k.treePoints|
            && r.minDist == Distance(q, k.treePoints[r.guess.value])
            && (forall j :: 0 <= j < |k.treePoints| ==> r.minDist <= Distance(q, k.treePoints[j]))
  {
    forall j | 0 <= j < |k.treePoints|
      ensures Measure(Truncated, q, k.treePoints[j]) < INT_MAX
    {
      DistanceBelowIntMax(q, k.treePoints[j]);
    }
    SearchFindsNearest(Truncated, k, q);
  }

  /**
    Querying with a stored point reports distance 0 and returns a point
    equal to the query.
  */
  lemma NnSearchSelfQuery(k: KdIndex, q: Point, i: nat)
    requires Indexes(k) && i < |k.treePoints| && k.treePoints[i] == q
    ensures var r := NnSearch(k, q);
            && r.guess.Some?
            && r.minDist == 0
            && r.guess.value < |k.treePoints|
            && k.treePoints[r.guess.value] == q
  {
    var r := NnSearch(k, q);
    SearchBelowAll(Truncated, k, q);
    DistanceBracket(q, k.treePoints[i]);
    assert r.minDist <= 0;
    assert r != Start;
    DistanceBracket(q, k.treePoints[r.guess.value]);
  }

  /** A tree over one point always answers with that point. */
  lemma NnSearchSinglePoint(p: Point, q: Point)
    requires SqDist(q, p) <= INT_MAX
    ensures NnSearch(BuildTree([p]), q) == Best(Some(0), Distance(q, p))
  {
    NnSearchFindsNearest(BuildTree([p]), q);
  }

  /** A tree built from no points answers every query with no guess. */
  lemma NnSearchEmpty(q: Point)
    ensures NnSearch(BuildTree([]), q) == Start
  {
    var k := BuildTree([]);
    assert Contents(k.root) == multiset{};
  }

  /** The default-constructed tree, with no points, answers every query with no guess. */
  lemma NnSearchDefaultTree(q: Point)
    ensures NnSearch(Empty(), q) == Start
  {
  }

  /**
    When one point is strictly nearer to the query than every other, the
    search reports exactly that point and its distance.
  */
  lemma NnSearchUniqueNearest(k: KdIndex, q: Point, n: nat)
    requires Indexes(k) && FitsInt(k.treePoints, q) && n < |k.treePoints|
    requires forall j :: 0 <= j < |k.treePoints| && j != n ==>
               Distance(q, k.treePoints[n]) < Distance(q, k.treePoints[j])
    ensures NnSearch(k, q) == Best(Some(n), Distance(q, k.treePoints[n]))
  {
    NnSearchFindsNearest(k, q);
  }

  /**
    The search on four points on the coordinate axes: the query (1, 1, 1)
    finds the origin at truncated distance 1, and the query (9, 0, 0)
    finds (10, 0, 0) at distance 1.
  */
  lemma NnSearchAxesExample(k: KdIndex)
    requires Indexes(k)
    requires k.treePoints == [Point(0, 0, 0), Point(10, 0, 0), Point(0, 10, 0), Point(0, 0, 10)]
    ensures NnSearch(k, Point(1, 1, 1)) == Best(Some(0), 1)
    ensures NnSearch(k, Point(9, 0, 0)) == Best(Some(1), 1)
  {
    AxesDistancesFromOne(k.treePoints, Point(1, 1, 1));
    AxesDistancesFromNine(k.treePoints, Point(9, 0, 0));
    NnSearchUniqueNearest(k, Point(1, 1, 1), 0);
    NnSearchUniqueNearest(k, Point(9, 0, 0), 1);
  }

  /** The four points of `NnSearchAxesExample`, one by one. */
  predicate AxesPoints(pts: seq<Point>) {
    && |pts| == 4
    && pts[0] == Point(0, 0, 0) && pts[1] == Point(10, 0, 0)
    && pts[2] == Point(0, 10, 0) && pts[3] == Point(0, 0, 10)
  }

  /** The squared distances from (1, 1, 1) to the four points: 3, 83, 83, 83. */
  lemma AxesSquaresFromOne(pts: seq<Point>, q: Point)
    requires AxesPoints(pts) && q == Point(1, 1, 1)
    ensures SqDist(q, pts[0]) == 3 && SqDist(q, pts[1]) == 83
    ensures SqDist(q, pts[2]) == 83 && SqDist(q, pts[3]) == 83
  {
  }

  /** The squared distances from (9, 0, 0) to the four points: 81, 1, 181, 181. */
  lemma AxesSquaresFromNine(pts: seq<Point>, q: Point)
    requires AxesPoints(pts) && q == Point(9, 0, 0)
    ensures SqDist(q, pts[0]) == 81 && SqDist(q, pts[1]) == 1
    ensures SqDist(q, pts[2]) == 181 && SqDist(q, pts[3]) == 181
  {
  }

  /** From (1, 1, 1) every squared distance fits an `int` and the origin is strictly closest. */
  lemma AxesExactFromOne(pts: seq<Point>, q: Point)
    requires AxesPoints(pts) && q == Point(1, 1, 1)
    ensures forall j :: 0 <= j < |pts| ==> SqDist(q, pts[j]) < INT_MAX
    ensures forall j :: 0 <= j < |pts| && j != 0 ==> SqDist(q, pts[0]) < SqDist(q, pts[j])
  {
    AxesSquaresFromOne(pts, q);
    forall j | 0 <= j < |pts|
      ensures SqDist(q, pts[j]) < INT_MAX
      ensures j != 0 ==> SqDist(q, pts[0]) < SqDist(q, pts[j])
    {
      assert j == 0 || j == 1 || j == 2 || j == 3;
    }
  }

  /** From (9, 0, 0) every squared distance fits an `int` and (10, 0, 0) is strictly closest. */
  lemma AxesExactFromNine(pts: seq<Point>, q: Point)
    requires AxesPoints(pts) && q == Point(9, 0, 0)
    ensures forall j :: 0 <= j < |pts| ==> SqDist(q, pts[j]) < INT_MAX
    ensures forall j :: 0 <= j < |pts| && j != 1 ==> SqDist(q, pts[1]) < SqDist(q, pts[j])
  {
    AxesSquaresFromNine(pts, q);
    forall j | 0 <= j < |pts|
      ensures SqDist(q, pts[j]) < INT_MAX
      ensures j != 1 ==> SqDist(q, pts[1]) < SqDist(q, pts[j])
    {
      assert j == 0 || j == 1 || j == 2 || j == 3;
    }
  }

  /** The truncated distances from (1, 1, 1) to the four points: 1, 9, 9, 9. */
  lemma AxesDistancesFromOne(pts: seq<Point>, q: Point)
    requires AxesPoints(pts) && q == Point(1, 1, 1)
    ensures FitsInt(pts, q)
    ensures forall j :: 0 < j < |pts| ==> Distance(q, pts[0]) < Distance(q, pts[j])
    ensures Distance(q, pts[0]) == 1
  {
    AxesSquaresFromOne(pts, q);
    DistanceIs(q, pts[0], 1);
    DistanceIs(q, pts[1], 9);
    DistanceIs(q, pts[2], 9);
    DistanceIs(q, pts[3], 9);
  }

  /** The truncated distances from (9, 0, 0) to the four points: 9, 1, 13, 13. */
  lemma AxesDistancesFromNine(pts: seq<Point>, q: Point)
    requires AxesPoints(pts) && q == Point(9, 0, 0)
    ensures FitsInt(pts, q)
    ensures forall j :: 0 <= j < |pts| && j != 1 ==> Distance(q, pts[1]) < Distance(q, pts[j])
    ensures Distance(q, pts[1]) == 1
  {
    AxesSquaresFromNine(pts, q);
    DistanceIs(q, pts[0], 9);
    DistanceIs(q, pts[1], 1);
    DistanceIs(q, pts[2], 13);
    DistanceIs(q, pts[3], 13);
  }

  /**
    The exact search: the same traversal with the squared distance as the
    measure and the squared gap in the far-side test.
  */
  function NnSearchExact(k: KdIndex, q: Point): (r: Best)
    requires WellFormed(k.treePoints, k.root)
    ensures k.root == Nil ==> r.guess == None && r.minDist == INT_MAX
    ensures r.guess.Some? ==>
              r.guess.value < |k.treePoints| && r.minDist == SqDist(q, k.treePoints[r.guess.value])
  {
    SearchRec(Squared, k.treePoints, q, k.root, Start)
  }

  /**
    The exact search returns a point of least squared distance when every
    squared distance is below `INT_MAX`.
  */
  lemma NnSearchExactFindsNearest(k: KdIndex, q: Point)
    requires Indexes(k) && |k.treePoints| > 0
    requires forall j :: 0 <= j < |k.treePoints| ==> SqDist(q, k.treePoints[j]) < INT_MAX
    ensures var r := NnSearchExact(k, q);
            && r.guess.Some?
            && r.guess.value < |k.treePoints|
            && r.minDist == SqDist(q, k.treePoints[r.guess.value])
            && (forall j :: 0 <= j < |k.treePoints| ==> r.minDist <= SqDist(q, k.treePoints[j]))
  {
    SearchFindsNearest(Squared, k, q);
  }

  /**
    When one point has a strictly smaller squared distance from the query
    than every other, the exact search reports that point and its squared
    distance.
  */
  lemma NnSearchExactUniqueNearest(k: KdIndex, q: Point, n: nat)
    requires Indexes(k) && n < |k.treePoints|
    requires forall j :: 0 <= j < |k.treePoints| ==> SqDist(q, k.treePoints[j]) < INT_MAX
    requires forall j :: 0 <= j < |k.treePoints| && j != n ==>
               SqDist(q, k.treePoints[n]) < SqDist(q, k.treePoints[j])
    ensures NnSearchExact(k, q) == Best(Some(n), SqDist(q, k.treePoints[n]))
  {
    NnSearchExactFindsNearest(k, q);
  }

  /**
    The exact search on the four points on the coordinate axes: the query
    (1, 1, 1) finds the origin at squared distance 3, and the query
    (9, 0, 0) finds (10, 0, 0) at squared distance 1.
  */
  lemma NnSearchExactAxesExample(k: KdIndex)
    requires Indexes(k)
    requires k.treePoints == [Point(0, 0, 0), Point(10, 0, 0), Point(0, 10, 0), Point(0, 0, 10)]
    ensures NnSearchExact(k, Point(1, 1, 1)) == Best(Some(0), 3)
    ensures NnSearchExact(k, Point(9, 0, 0)) == Best(Some(1), 1)
  {
    assert AxesPoints(k.treePoints);
    AxesExactFromOne(k.treePoints, Point(1, 1, 1));
    AxesExactFromNine(k.treePoints, Point(9, 0, 0));
    NnSearchExactUniqueNearest(k, Point(1, 1, 1), 0);
    NnSearchExactUniqueNearest(k, Point(9, 0, 0), 1);
  }

  /**
    With the truncated measure the search can return a point that is not
    the closest. From the origin, (1, 1, 0) at squared distance 2 and
    (0, 1, 0) at squared distance 1 both truncate to distance 1. The first
    is the root of the tree and is kept; the second, in the child searched
    next, is not strictly better under the truncated measure and is
    passed over. The exact search returns the second.
  */
  lemma TruncationPicksFartherPoint(k: KdIndex, q: Point)
    requires Indexes(k) && k.treePoints == [Point(1, 1, 0), Point(0, 1, 0), Point(5, 0, 0)]
    requires q == Point(0, 0, 0)
    ensures NnSearch(k, q) == Best(Some(0), 1)
    ensures SqDist(q, k.treePoints[1]) < SqDist(q, k.treePoints[0])
    ensures NnSearchExact(k, q) == Best(Some(1), 1)
  {
    assert CounterexamplePoints(k.treePoints);
    CounterexampleTree(k);
    CounterexampleDistances(k.treePoints);
    TruncatedTrace(k.treePoints);
    SquaredTrace(k.treePoints);
  }

  /** The three points of `TruncationPicksFartherPoint`, one by one. */
  predicate CounterexamplePoints(pts: seq<Point>) {
    |pts| == 3 && pts[0] == Point(1, 1, 0) && pts[1] == Point(0, 1, 0) && pts[2] == Point(5, 0, 0)
  }

  /** The tree over those points, as `CounterexampleTree` shows it is built. */
  function CounterexampleRoot(): Tree {
    Node(0, 0, Node(1, 1, Nil, Nil), Node(2, 1, Nil, Nil))
  }

  /** Seen from the origin, the first two points both truncate to distance 1. */
  lemma CounterexampleDistances(pts: seq<Point>)
    requires CounterexamplePoints(pts)
    ensures WellFormed(pts, CounterexampleRoot())
    ensures SqDist(Point(0, 0, 0), pts[0]) == 2 && Distance(Point(0, 0, 0), pts[0]) == 1
    ensures SqDist(Point(0, 0, 0), pts[1]) == 1 && Distance(Point(0, 0, 0), pts[1]) == 1
  {
    assert WellFormed(pts, Node(1, 1, Nil, Nil)) && WellFormed(pts, Node(2, 1, Nil, Nil));
    CounterexampleSquares(pts, Point(0, 0, 0));
  }

  /** The squared distances from the origin to the first two points, and their truncated roots. */
  lemma CounterexampleSquares(pts: seq<Point>, q: Point)
    requires CounterexamplePoints(pts) && q == Point(0, 0, 0)
    ensures SqDist(q, pts[0]) == 2 && Distance(q, pts[0]) == 1
    ensures SqDist(q, pts[1]) == 1 && Distance(q, pts[1]) == 1
  {
    DistanceIs(q, pts[0], 1);
    DistanceIs(q, pts[1], 1);
  }

  /** The truncated search on the tree keeps the root and passes over its left child. */
  lemma TruncatedTrace(pts: seq<Point>)
    requires CounterexamplePoints(pts) && WellFormed(pts, CounterexampleRoot())
    requires Distance(Point(0, 0, 0), pts[0]) == 1 && Distance(Point(0, 0, 0), pts[1]) == 1
    ensures SearchRec(Truncated, pts, Point(0, 0, 0), CounterexampleRoot(), Start) == Best(Some(0), 1)
  {
    var q, t1, t2 := Point(0, 0, 0), Node(1, 1, Nil, Nil), Node(2, 1, Nil, Nil);
    var s1 := Best(Some(0), 1);
    assert SearchNode(Truncated, pts, q, 1, 1, Nil, Nil, s1) == s1;
    assert SearchRec(Truncated, pts, q, t1, s1) == s1;
    assert SearchNode(Truncated, pts, q, 0, 0, t1, t2, Start) == s1;
  }

  /** The exact search on the tree replaces the root by its left child. */
  lemma SquaredTrace(pts: seq<Point>)
    requires CounterexamplePoints(pts) && WellFormed(pts, CounterexampleRoot())
    requires SqDist(Point(0, 0, 0), pts[0]) == 2 && SqDist(Point(0, 0, 0), pts[1]) == 1
    ensures SearchRec(Squared, pts, Point(0, 0, 0), CounterexampleRoot(), Start) == Best(Some(1), 1)
  {
    var q, t1, t2 := Point(0, 0, 0), Node(1, 1, Nil, Nil), Node(2, 1, Nil, Nil);
    var e1, e2 := Best(Some(0), 2), Best(Some(1), 1);
    assert SearchNode(Squared, pts, q, 1, 1, Nil, Nil, e1) == e2;
    assert SearchRec(Squared, pts, q, t1, e1) == e2;
    assert SearchNode(Squared, pts, q, 0, 0, t1, t2, Start) == e2;
  }

  /**
    The tree over the points of `TruncationPicksFartherPoint`: the median
    on x is (1, 1, 0), with (0, 1, 0) below it and (5, 0, 0) above.
  */
  lemma CounterexampleTree(k: KdIndex)
    requires Indexes(k) && CounterexamplePoints(k.treePoints)
    ensures k.root == CounterexampleRoot()
  {
    var t := k.root;
    IndexesSize(k);
    ThreeNodeShape(t);
    ThreeNodeAxes(t);
    SplitAtRoot(k.treePoints, t);
    CounterexampleShape(k.treePoints, t);
  }

  /**
    A root with two leaf children over the three points, split on x at the
    root and on y below, with x ordered left to right, is `CounterexampleRoot`.
  */
  lemma CounterexampleShape(pts: seq<Point>, t: Tree)
    requires CounterexamplePoints(pts)
    requires t.Node? && t.left.Node? && t.right.Node?
    requires t.left.left == Nil && t.left.right == Nil && t.right.left == Nil && t.right.right == Nil
    requires t.idx < 3 && t.left.idx < 3 && t.right.idx < 3
    requires t.idx != t.left.idx && t.idx != t.right.idx && t.left.idx != t.right.idx
    requires t.axis == 0 && t.left.axis == 1 && t.right.axis == 1
    requires Coord(pts[t.left.idx], t.axis) <= Coord(pts[t.idx], t.axis) <= Coord(pts[t.right.idx], t.axis)
    ensures t == CounterexampleRoot()
  {
    var i, lo, hi := t.idx, t.left.idx, t.right.idx;
    CounterexampleOrder(pts, i, lo, hi);
    assert t == Node(i, 0, Node(lo, 1, Nil, Nil), Node(hi, 1, Nil, Nil));
  }

  /** A root with two leaf children, axes cycling from 0: the root splits on 0 and the leaves on 1. */
  lemma ThreeNodeAxes(t: Tree)
    requires AxesFrom(t, 0) && t.Node? && t.left.Node? && t.right.Node?
    ensures t.axis == 0 && t.left.axis == 1 && t.right.axis == 1
  {
  }

  /** The split invariant at a root with two children, for those children's own points. */
  lemma SplitAtRoot(pts: seq<Point>, t: Tree)
    requires SplitOk(pts, t) && t.Node? && t.left.Node? && t.right.Node?
    ensures t.idx < |pts| && t.left.idx < |pts| && t.right.idx < |pts|
    ensures Coord(pts[t.left.idx], t.axis) <= Coord(pts[t.idx], t.axis) <= Coord(pts[t.right.idx], t.axis)
  {
    assert t.left.idx in Contents(t.left) && t.right.idx in Contents(t.right);
  }

  /** Ordered on x, the three points are (0, 1, 0), (1, 1, 0), (5, 0, 0). */
  lemma CounterexampleOrder(pts: seq<Point>, i: nat, lo: nat, hi: nat)
    requires CounterexamplePoints(pts) && i < 3 && lo < 3 && hi < 3
    requires i != lo && i != hi && lo != hi
    requires pts[lo].x <= pts[i].x <= pts[hi].x
    ensures i == 0 && lo == 1 && hi == 2
  {
    assert pts[0].x == 1 && pts[1].x == 0 && pts[2].x == 5;
  }

  /** `TruncationPicksFartherPoint` for the tree `BuildTree` builds. */
  lemma BuiltTreePicksFartherPoint(points: seq<Point>)
    requires points == [Point(1, 1, 0), Point(0, 1, 0), Point(5, 0, 0)]
    ensures NnSearch(BuildTree(points), Point(0, 0, 0)) == Best(Some(0), 1)
    ensures NnSearchExact(BuildTree(points), Point(0, 0, 0)) == Best(Some(1), 1)
  {
    TruncationPicksFartherPoint(BuildTree(points), Point(0, 0, 0));
  }
}
