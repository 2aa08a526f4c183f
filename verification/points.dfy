/**
  Points of the colour space and the distance the tree uses between them.

  A point is a triple of integer coordinates indexed by an axis 0, 1 or 2.
  The tree's `distance` sums the squared coordinate differences and then
  takes the square root, truncated to an integer; it is modelled here with
  an exact integer square root `ISqrt`.
*/
module Points {

  /** The largest 32-bit `int`; the search starts its best distance here. */
  const INT_MAX: int := 0x7fff_ffff

  /** A split axis: 0, 1 or 2. */
  type Axis = a: nat | a < 3

  /** An integer triple. */
  datatype Point = Point(x: int, y: int, z: int)

  /** The coordinate of `p` on axis `a`. */
  function Coord(p: Point, a: Axis): int {
    if a == 0 then p.x else if a == 1 then p.y else p.z
  }

  /** Absolute value. */
  function Abs(v: int): (r: nat)
    ensures r == v || r == -v
  {
    if v < 0 then -v else v
  }

  /** The square of an integer. */
  function Square(v: int): (r: nat)
  {
    v * v
  }

  /** The squared Euclidean distance between two points. */
  function SqDist(p: Point, q: Point): nat
  {
    Square(p.x - q.x) + Square(p.y - q.y) + Square(p.z - q.z)
  }

  /** A square is zero exactly at zero. */
  lemma SquareZero(v: int)
    ensures Square(v) == 0 <==> v == 0
  {
    if v > 0 {
      assert v * v >= v * 1;
    } else if v < 0 {
      assert v * v == (-v) * (-v) >= (-v) * 1;
    }
  }

  /**
    The squared distance is zero exactly between equal points, and it is
    at least the squared difference on any single axis.
  */
  lemma SqDistBounds(p: Point, q: Point, a: Axis)
    ensures SqDist(p, q) == 0 <==> p == q
    ensures Square(Coord(p, a) - Coord(q, a)) <= SqDist(p, q)
  {
    SquareZero(p.x - q.x);
    SquareZero(p.y - q.y);
    SquareZero(p.z - q.z);
  }

  /** `a <= b` implies `a * a <= b * b` for naturals. */
  lemma SquareMonotone(a: nat, b: nat)
    requires a <= b
    ensures a * a <= b * b
  {
    assert a * a <= a * b by {
      assert a * (b - a) >= 0;
    }
    assert a * b <= b * b by {
      assert (b - a) * b >= 0;
    }
  }

  /**
    Counts `r` up from a root candidate whose square is `sq`, while the
    next square `sq + 2 * r + 1` still fits under `n`.
  */
  function ISqrtFrom(n: nat, r: nat, sq: nat): nat
    requires sq <= n
    decreases n - sq
  {
    if sq + 2 * r + 1 <= n then ISqrtFrom(n, r + 1, sq + 2 * r + 1) else r
  }

  /** The integer square root. */
  function ISqrt(n: nat): nat
  {
    ISqrtFrom(n, 0, 0)
  }

  /** Counting up from a candidate whose square fits reaches the largest such root. */
  lemma {:induction false} ISqrtFromBracket(n: nat, r: nat, sq: nat)
    requires sq == r * r && sq <= n
    ensures var s := ISqrtFrom(n, r, sq);
            s * s <= n < (s + 1) * (s + 1)
    decreases n - sq
  {
    assert (r + 1) * (r + 1) == sq + 2 * r + 1;
    if sq + 2 * r + 1 <= n {
      ISqrtFromBracket(n, r + 1, sq + 2 * r + 1);
    }
  }

  /** `ISqrt(n)` is the largest `r` with `r * r <= n`. */
  lemma ISqrtBracket(n: nat)
    ensures ISqrt(n) * ISqrt(n) <= n < (ISqrt(n) + 1) * (ISqrt(n) + 1)
  {
    ISqrtFromBracket(n, 0, 0);
  }

  /** The bracket `r * r <= n < (r + 1) * (r + 1)` determines `ISqrt(n)`. */
  lemma ISqrtUnique(n: nat, r: nat)
    requires r * r <= n < (r + 1) * (r + 1)
    ensures ISqrt(n) == r
  {
    var s := ISqrt(n);
    ISqrtBracket(n);
    if s < r {
      SquareMonotone(s + 1, r);
    } else if r < s {
      SquareMonotone(r + 1, s);
    }
  }

  /** The integer square root is monotone. */
  lemma ISqrtMonotone(m: nat, n: nat)
    requires m <= n
    ensures ISqrt(m) <= ISqrt(n)
  {
    var r, s := ISqrt(m), ISqrt(n);
    ISqrtBracket(m);
    ISqrtBracket(n);
    if s < r {
      SquareMonotone(s + 1, r);
    }
  }

  /** The integer square root of a perfect square is its root. */
  lemma ISqrtOfSquare(d: nat)
    ensures ISqrt(d * d) == d
  {
    assert (d + 1) * (d + 1) == d * d + 2 * d + 1;
    ISqrtUnique(d * d, d);
  }

  /**
    The tree's `distance`: the square root of the squared distance,
    truncated to an integer.
  */
  function Distance(p: Point, q: Point): nat
  {
    ISqrt(SqDist(p, q))
  }

  /**
    The truncated distance `r` brackets the squared distance between `r * r`
    and `(r + 1) * (r + 1)`, and is zero exactly between equal points.
  */
  lemma DistanceBracket(p: Point, q: Point)
    ensures var r := Distance(p, q);
            r * r <= SqDist(p, q) < (r + 1) * (r + 1) && (r == 0 <==> p == q)
  {
    SqDistBounds(p, q, 0);
    ISqrtBracket(SqDist(p, q));
  }

  /** A bracket `r * r <= SqDist(p, q) < (r + 1) * (r + 1)` determines the distance. */
  lemma DistanceIs(p: Point, q: Point, r: nat)
    requires r * r <= SqDist(p, q) < (r + 1) * (r + 1)
    ensures Distance(p, q) == r
  {
    ISqrtUnique(SqDist(p, q), r);
  }

  /**
    When the squared distance fits in an `int`, the truncated distance is
    strictly below `INT_MAX`, so the first node the search visits always
    improves on its starting bound.
  */
  lemma DistanceBelowIntMax(p: Point, q: Point)
    requires SqDist(p, q) <= INT_MAX
    ensures Distance(p, q) < INT_MAX
  {
    var r := Distance(p, q);
    DistanceBracket(p, q);
    if r >= 2 {
      assert r * r >= 2 * r by {
        assert r * (r - 2) >= 0;
        assert r * r == r * (r - 2) + 2 * r;
      }
      assert 2 * r <= INT_MAX;
    }
  }
}
