/**
  The selection step of the tree build: `std::nth_element` over a range of
  point indices, comparing the indexed points on one axis.

  Only its contract matters to the tree: the result is a permutation of the
  range in which the entry at `mid` is not smaller than any entry before it
  and not larger than any entry after it. The model meets that contract
  with a stable insertion sort on the axis coordinate, which is one of the
  arrangements `nth_element` may produce (for ranges of at most three
  entries the common library implementations insertion-sort too, so ties
  come out in the same order there).
*/
module AxisSort {
  import opened Points

  /** Every entry of `s` indexes into `pts`. */
  predicate InRange(pts: seq<Point>, s: seq<nat>) {
    forall k :: 0 <= k < |s| ==> s[k] < |pts|
  }

  /** The comparison key of index `i`: its point's coordinate on axis `a`. */
  function Key(pts: seq<Point>, a: Axis, i: nat): int
    requires i < |pts|
  {
    Coord(pts[i], a)
  }

  /** `s` is ordered by non-decreasing key on axis `a`. */
  predicate SortedOn(pts: seq<Point>, a: Axis, s: seq<nat>)
    requires InRange(pts, s)
  {
    forall i, j :: 0 <= i < j < |s| ==> Key(pts, a, s[i]) <= Key(pts, a, s[j])
  }

  /**
    The contract of `nth_element(first, first + mid, last, comp)`: `after`
    rearranges `before`, and the entry at `mid` separates entries whose
    keys are no larger (before it) from entries whose keys are no smaller
    (after it).
  */
  predicate IsNthElement(pts: seq<Point>, a: Axis, before: seq<nat>, after: seq<nat>, mid: nat)
  {
    && InRange(pts, after)
    && |after| == |before|
    && multiset(after) == multiset(before)
    && mid < |after|
    && (forall i :: 0 <= i < mid ==> Key(pts, a, after[i]) <= Key(pts, a, after[mid]))
    && (forall i :: mid < i < |after| ==> Key(pts, a, after[mid]) <= Key(pts, a, after[i]))
  }

  /** A sequence is its prefix before `mid`, its entry at `mid` and its suffix after `mid`. */
  lemma MultisetAround(s: seq<nat>, mid: nat)
    requires mid < |s|
    ensures multiset(s) == multiset(s[..mid]) + multiset{s[mid]} + multiset(s[mid + 1..])
  {
    assert s == s[..mid] + [s[mid]] + s[mid + 1..];
  }

  /**
    What the nth_element contract gives the tree build: cut at `mid`, the
    arranged range is a median, a lower part and an upper part that
    together make up the original range, with keys bracketing the median.
  */
  lemma NthElementParts(pts: seq<Point>, a: Axis, before: seq<nat>, after: seq<nat>, mid: nat,
                        lo: seq<nat>, hi: seq<nat>)
    requires IsNthElement(pts, a, before, after, mid)
    requires mid < |after| && lo == after[..mid] && hi == after[mid + 1..]
    ensures after[mid] < |pts| && InRange(pts, lo) && InRange(pts, hi)
    ensures multiset(before) == multiset{after[mid]} + multiset(lo) + multiset(hi)
    ensures forall k :: 0 <= k < |lo| ==> Key(pts, a, lo[k]) <= Key(pts, a, after[mid])
    ensures forall k :: 0 <= k < |hi| ==> Key(pts, a, after[mid]) <= Key(pts, a, hi[k])
  {
    MultisetAround(after, mid);
    assert forall k :: 0 <= k < |hi| ==> hi[k] == after[mid + 1 + k];
  }

  /** Inserts `x` into the key-sorted `s` before every entry with a key no smaller. */
  function InsertByKey(pts: seq<Point>, a: Axis, x: nat, s: seq<nat>): (r: seq<nat>)
    requires x < |pts| && InRange(pts, s) && SortedOn(pts, a, s)
    ensures multiset(r) == multiset(s) + multiset{x}
    ensures |r| == |s| + 1
    ensures r[0] == x || (|s| > 0 && r[0] == s[0])
    ensures InRange(pts, r) && SortedOn(pts, a, r)
  {
    if |s| == 0 then [x]
    else if Key(pts, a, x) <= Key(pts, a, s[0]) then
      ConsSorted(pts, a, x, s);
      [x] + s
    else
      var rest := InsertByKey(pts, a, x, s[1..]);
      assert s == [s[0]] + s[1..];
      ConsSorted(pts, a, s[0], rest);
      [s[0]] + rest
  }

  /** Putting in front of a key-sorted sequence an entry no larger than its head keeps it sorted. */
  lemma ConsSorted(pts: seq<Point>, a: Axis, h: nat, t: seq<nat>)
    requires h < |pts| && InRange(pts, t) && SortedOn(pts, a, t)
    requires |t| > 0 ==> Key(pts, a, h) <= Key(pts, a, t[0])
    ensures InRange(pts, [h] + t) && SortedOn(pts, a, [h] + t)
  {
    var r := [h] + t;
    forall i, j | 0 <= i < j < |r|
      ensures Key(pts, a, r[i]) <= Key(pts, a, r[j])
    {
      if i > 0 {
        assert r[i] == t[i - 1] && r[j] == t[j - 1];
      } else {
        assert r[j] == t[j - 1];
      }
    }
  }

  /** Sorts the index sequence `s` by key on axis `a`. */
  function SortByAxis(pts: seq<Point>, a: Axis, s: seq<nat>): (r: seq<nat>)
    requires InRange(pts, s)
    ensures multiset(r) == multiset(s)
    ensures |r| == |s|
    ensures InRange(pts, r) && SortedOn(pts, a, r)
  {
    if |s| == 0 then []
    else
      assert s == [s[0]] + s[1..];
      InsertByKey(pts, a, s[0], SortByAxis(pts, a, s[1..]))
  }

  /**
    `nth_element` on the index range `s`, comparing on axis `a`, with the
    nth position `mid`.
  */
  function NthElement(pts: seq<Point>, a: Axis, s: seq<nat>, mid: nat): (r: seq<nat>)
    requires InRange(pts, s) && mid < |s|
    ensures IsNthElement(pts, a, s, r, mid)
  {
    SortByAxis(pts, a, s)
  }
}
