/**
  The bounded priority queue of the tree code: a vector kept in order
  under a comparison `lt`, whose `push` inserts a value after every element
  not greater than it and then cuts the vector back to the bound.

  `lt` plays the part of the `Compare` template argument. The C++ standard
  asks such a comparison to be a strict weak ordering; the properties that
  need it say so with `StrictWeakOrder`.
*/
module BoundedQueue {

  /**
    `lt` is a strict weak ordering: irreflexive, transitive, and whenever
    `x < z` every `y` lies above `x` or below `z`.
  */
  ghost predicate StrictWeakOrder<T(!new)>(lt: (T, T) -> bool) {
    && (forall x :: !lt(x, x))
    && (forall x, y, z :: lt(x, y) && lt(y, z) ==> lt(x, z))
    && (forall x, y, z :: lt(x, z) ==> lt(x, y) || lt(y, z))
  }

  /** No element of `s` is greater than a later one. */
  predicate Sorted<T>(s: seq<T>, lt: (T, T) -> bool) {
    forall i, j :: 0 <= i < j < |s| ==> !lt(s[j], s[i])
  }

  /** The queue: the bound it was created with and its elements in order. */
  datatype Queue<T> = Queue(bound: nat, elems: seq<T>)

  /** The constructor `BoundedPriorityQueue(Bound)`: no elements yet. */
  function Create<T>(bound: nat): Queue<T> {
    Queue(bound, [])
  }

  /** The queue invariant: elements in order and no more of them than the bound. */
  predicate Valid<T>(q: Queue<T>, lt: (T, T) -> bool) {
    Sorted(q.elems, lt) && |q.elems| <= q.bound
  }

  /**
    The `find_if` of `push`: the position of the first element greater
    than `v`, or `|s|` when there is none.
  */
  function UpperBound<T>(s: seq<T>, v: T, lt: (T, T) -> bool): (p: nat)
    ensures p <= |s|
    ensures forall i :: 0 <= i < p ==> !lt(v, s[i])
    ensures p < |s| ==> lt(v, s[p])
  {
    if |s| == 0 then 0
    else if lt(v, s[0]) then 0
    else 1 + UpperBound(s[1..], v, lt)
  }

  /** The first `n` elements of `s`, or all of them when there are fewer (`resize`). */
  function Take<T>(s: seq<T>, n: nat): (r: seq<T>)
    ensures |r| == if |s| <= n then |s| else n
    ensures forall i :: 0 <= i < |r| ==> r[i] == s[i]
  {
    if |s| <= n then s else s[..n]
  }

  /** `push`: insert `v` at its upper bound, then keep at most `bound` elements. */
  function Push<T>(q: Queue<T>, v: T, lt: (T, T) -> bool): (r: Queue<T>)
    ensures r.bound == q.bound
    ensures |r.elems| == if |q.elems| + 1 <= q.bound then |q.elems| + 1 else q.bound
  {
    var p := UpperBound(q.elems, v, lt);
    Queue(q.bound, Take(q.elems[..p] + [v] + q.elems[p..], q.bound))
  }

  /** `size()`. */
  function Size<T>(q: Queue<T>): nat {
    |q.elems|
  }

  /** `back()`: the last element; the queue must not be empty. */
  function Back<T>(q: Queue<T>): T
    requires |q.elems| > 0
  {
    q.elems[|q.elems| - 1]
  }

  /** `operator[]`: the element at `index`, which must be below `size()`. */
  function At<T>(q: Queue<T>, index: nat): T
    requires index < |q.elems|
  {
    q.elems[index]
  }

  /**
    Sorted insertion by recursion on the sequence: the reference the
    search-and-insert of `push` is checked against.
  */
  function InsertSorted<T>(s: seq<T>, v: T, lt: (T, T) -> bool): (r: seq<T>)
    ensures multiset(r) == multiset(s) + multiset{v}
    ensures |r| == |s| + 1
  {
    if |s| == 0 then [v]
    else if lt(v, s[0]) then [v] + s
    else
      assert s == [s[0]] + s[1..];
      [s[0]] + InsertSorted(s[1..], v, lt)
  }

  /** Splitting at the upper bound and putting `v` in between is `InsertSorted`. */
  lemma {:induction false} SplitIsInsertSorted<T>(s: seq<T>, v: T, lt: (T, T) -> bool)
    ensures var p := UpperBound(s, v, lt);
            s[..p] + [v] + s[p..] == InsertSorted(s, v, lt)
  {
    if |s| > 0 && !lt(v, s[0]) {
      var t := s[1..];
      SplitIsInsertSorted(t, v, lt);
      assert s == [s[0]] + t;
      ConsSplit(s[0], t, UpperBound(t, v, lt), v);
    }
  }

  /** Splitting `[x] + t` one place after a split of `t` keeps `x` in front. */
  lemma ConsSplit<T>(x: T, t: seq<T>, p: nat, v: T)
    requires p <= |t|
    ensures ([x] + t)[..p + 1] + [v] + ([x] + t)[p + 1..] == [x] + (t[..p] + [v] + t[p..])
  {
    assert ([x] + t)[..p + 1] == [x] + t[..p];
    assert ([x] + t)[p + 1..] == t[p..];
  }

  /**
    `push` is the reference insertion cut back to the bound: the queue
    after `push` holds the `bound` first elements of the old elements with
    `v` inserted in order.
  */
  lemma PushIsBoundedInsert<T>(q: Queue<T>, v: T, lt: (T, T) -> bool)
    ensures Push(q, v, lt) == Queue(q.bound, Take(InsertSorted(q.elems, v, lt), q.bound))
  {
    SplitIsInsertSorted(q.elems, v, lt);
  }

  /**
    On a sorted sequence under a strict weak ordering, the upper bound
    separates the elements not greater than `v` (before it) from the
    elements greater than `v` (from it on).
  */
  lemma UpperBoundSplits<T(!new)>(s: seq<T>, v: T, lt: (T, T) -> bool)
    requires StrictWeakOrder(lt) && Sorted(s, lt)
    ensures var p := UpperBound(s, v, lt);
            forall i :: 0 <= i < |s| ==> (i < p <==> !lt(v, s[i]))
  {
    var p := UpperBound(s, v, lt);
    forall i | p <= i < |s|
      ensures lt(v, s[i])
    {
      if i > p {
        assert !lt(s[i], s[p]);
      }
    }
  }

  /** Inserting at the upper bound keeps a sorted sequence sorted. */
  lemma InsertKeepsSorted<T(!new)>(s: seq<T>, v: T, lt: (T, T) -> bool)
    requires StrictWeakOrder(lt) && Sorted(s, lt)
    ensures var p := UpperBound(s, v, lt);
            Sorted(s[..p] + [v] + s[p..], lt)
  {
    var p := UpperBound(s, v, lt);
    var r := s[..p] + [v] + s[p..];
    UpperBoundSplits(s, v, lt);
    forall i, j | 0 <= i < j < |r|
      ensures !lt(r[j], r[i])
    {
      if j < p {
        assert r[i] == s[i] && r[j] == s[j];
      } else if j == p {
        assert r[i] == s[i] && r[j] == v;
      } else if i < p {
        assert r[i] == s[i] && r[j] == s[j - 1];
      } else if i == p {
        assert r[i] == v && r[j] == s[j - 1];
        assert lt(v, s[j - 1]);
      } else {
        assert r[i] == s[i - 1] && r[j] == s[j - 1];
      }
    }
  }

  /** A prefix of a sorted sequence is sorted. */
  lemma TakeKeepsSorted<T>(s: seq<T>, n: nat, lt: (T, T) -> bool)
    requires Sorted(s, lt)
    ensures Sorted(Take(s, n), lt)
  {
  }

  /**
    `push` keeps the queue invariant: the elements stay in order under a
    strict weak ordering, and there are never more than `bound` of them.
  */
  lemma PushKeepsValid<T(!new)>(q: Queue<T>, v: T, lt: (T, T) -> bool)
    requires StrictWeakOrder(lt) && Valid(q, lt)
    ensures Valid(Push(q, v, lt), lt)
  {
    var p := UpperBound(q.elems, v, lt);
    InsertKeepsSorted(q.elems, v, lt);
    TakeKeepsSorted(q.elems[..p] + [v] + q.elems[p..], q.bound, lt);
  }

  /**
    `push` is stable: when `v` is kept, every element before it in the
    queue is not greater than it and every element after it is greater, so
    elements equivalent to `v` that were already queued stay ahead of it.
    Apart from `v`, the queue holds the old elements in their old order.
  */
  lemma PushIsStable<T(!new)>(q: Queue<T>, v: T, lt: (T, T) -> bool)
    requires StrictWeakOrder(lt) && Sorted(q.elems, lt)
    ensures var p := UpperBound(q.elems, v, lt);
            var r := Push(q, v, lt).elems;
            && (p < |r| ==> r[p] == v)
            && (forall i :: 0 <= i < |r| && i != p ==> (i < p <==> !lt(v, r[i])))
            && (forall i :: 0 <= i < |r| && i < p ==> r[i] == q.elems[i])
            && (forall i :: 0 <= i < |r| && i > p ==> r[i] == q.elems[i - 1])
  {
    UpperBoundSplits(q.elems, v, lt);
  }

  /**
    What `push` drops is never smaller than what it keeps: when the
    inserted sequence overflows the bound, each dropped element is at
    least as large as each kept one.
  */
  lemma PushDropsLargest<T(!new)>(q: Queue<T>, v: T, lt: (T, T) -> bool)
    requires StrictWeakOrder(lt) && Sorted(q.elems, lt)
    ensures var s := InsertSorted(q.elems, v, lt);
            var r := Push(q, v, lt).elems;
            forall i, j :: 0 <= i < |r| <= j < |s| ==> !lt(s[j], r[i])
  {
    InsertKeepsSorted(q.elems, v, lt);
    PushIsBoundedInsert(q, v, lt);
    SplitIsInsertSorted(q.elems, v, lt);
  }

  /** `back()` of a sorted queue is a largest element. */
  lemma BackIsLargest<T(!new)>(q: Queue<T>, lt: (T, T) -> bool)
    requires StrictWeakOrder(lt) && Sorted(q.elems, lt) && |q.elems| > 0
    ensures forall i :: 0 <= i < |q.elems| ==> !lt(Back(q), At(q, i))
  {
  }

  /** `std::less` on `pair<int, int>`: lexicographic order. */
  predicate PairLess(a: (int, int), b: (int, int)) {
    a.0 < b.0 || (a.0 == b.0 && a.1 < b.1)
  }

  /** The lexicographic order on pairs is a strict weak ordering. */
  lemma PairLessIsStrictWeakOrder()
    ensures StrictWeakOrder(PairLess)
  {
  }

  /** `KnnQueue`: a bounded queue of (distance, index) pairs. */
  type KnnQueue = Queue<(int, int)>

  /**
    Pushing (3, 0), (1, 1), (2, 2) and (1, 3) into a `KnnQueue` of bound 2
    leaves (1, 1) and then (1, 3), the two smallest pairs in lexicographic
    order; (3, 0) is dropped by the third push and (2, 2) by the fourth.
  */
  lemma KnnQueueExample()
    ensures var q0: KnnQueue := Create(2);
            var q1 := Push(q0, (3, 0), PairLess);
            var q2 := Push(q1, (1, 1), PairLess);
            var q3 := Push(q2, (2, 2), PairLess);
            var q4 := Push(q3, (1, 3), PairLess);
            q4.elems == [(1, 1), (1, 3)]
  {
  }

  /** Comparing pairs on their first component alone: pairs with equal first components are equivalent. */
  predicate FirstLess(a: (int, int), b: (int, int)) {
    a.0 < b.0
  }

  /**
    With a comparison under which (1, 1) and (1, 3) are equivalent, a
    queue of bound 3 fed (2, 0), (1, 1), (1, 3) holds (1, 1), (1, 3),
    (2, 0): the later of the two equivalent values goes after the earlier.
  */
  lemma StableExample()
    ensures var q0: Queue<(int, int)> := Create(3);
            var q1 := Push(q0, (2, 0), FirstLess);
            var q2 := Push(q1, (1, 1), FirstLess);
            var q3 := Push(q2, (1, 3), FirstLess);
            q3.elems == [(1, 1), (1, 3), (2, 0)]
  {
  }
}
