/**
 * Bounded segment intersection, the vertical ordering of a segment's
 * endpoints, and the two side-of-line predicates.
 */
module Segments {
  import opened Wrappers
  import opened GeometryModel
  import opened Vectors
  import opened Tolerance

  /** The point at parameter `t` along `a -> b`: `a` at 0, `b` at 1. */
  function Lerp(a: Point, b: Point, t: real): Point
  {
    Point(a.x + t * (b.x - a.x), a.y + t * (b.y - a.y))
  }

  predicate InUnit(t: real) { 0.0 <= t <= 1.0 }

  /** The determinant `k` of the two segments' directions; zero when parallel. */
  function Determinant(a: Point, b: Point, c: Point, d: Point): real
  {
    (a.x - b.x) * (c.y - d.y) - (a.y - b.y) * (c.x - d.x)
  }

  /** The numerator of the parameter `t` along `a -> b`. */
  function NumeratorT(a: Point, b: Point, c: Point, d: Point): real
  {
    (a.x - c.x) * (c.y - d.y) - (a.y - c.y) * (c.x - d.x)
  }

  /** The numerator of the parameter `u` along `c -> d`. */
  function NumeratorU(a: Point, b: Point, c: Point, d: Point): real
  {
    (a.x - c.x) * (a.y - b.y) - (a.y - c.y) * (a.x - b.x)
  }

  /**
   * The common point of the bounded segments `a-b` and `c-d`, or None when
   * they are parallel (collinear overlap included) or the crossing of their
   * lines lies outside either segment.
   */
  function Intersection(a: Point, b: Point, c: Point, d: Point): (r: Option<Point>)
    ensures Determinant(a, b, c, d) == 0.0 ==> r.None?
  {
    var k := Determinant(a, b, c, d);
    if k == 0.0 then None
    else
      var t := NumeratorT(a, b, c, d) / k;
      var u := NumeratorU(a, b, c, d) / k;
      if !(InUnit(t) && InUnit(u)) then None else Some(Lerp(a, b, t))
  }

  /** The two segments, taken as point sets, share a point. */
  ghost predicate SegmentsMeet(a: Point, b: Point, c: Point, d: Point)
  {
    exists t: real, u: real :: InUnit(t) && InUnit(u) && Lerp(a, b, t) == Lerp(c, d, u)
  }

  /** `Lerp(a, b, t) == Lerp(c, d, u)` as the linear system the determinant solves. */
  lemma LerpEqualSystem(a: Point, b: Point, c: Point, d: Point, t: real, u: real)
    ensures Lerp(a, b, t) == Lerp(c, d, u) <==>
      && a.x - c.x == t * (a.x - b.x) - u * (c.x - d.x)
      && a.y - c.y == t * (a.y - b.y) - u * (c.y - d.y)
  {
    var l1, l2 := Lerp(a, b, t), Lerp(c, d, u);
    assert l1 == l2 <==> l1.x == l2.x && l1.y == l2.y;
    LerpCoordinate(a.x, b.x, c.x, d.x, t, u, l1.x, l2.x);
    LerpCoordinate(a.y, b.y, c.y, d.y, t, u, l1.y, l2.y);
  }

  lemma LerpCoordinate(a: real, b: real, c: real, d: real, t: real, u: real, l1: real, l2: real)
    requires l1 == a + t * (b - a) && l2 == c + u * (d - c)
    ensures l1 == l2 <==> a - c == t * (a - b) - u * (c - d)
  {
    assert t * (b - a) == -(t * (a - b));
    assert u * (d - c) == -(u * (c - d));
  }

  /**
   * A point is returned only when it lies on both segments: at parameter
   * `t` in [0, 1] along `a-b` and at parameter `u` in [0, 1] along `c-d`.
   */
  lemma {:induction false} IntersectionSound(a: Point, b: Point, c: Point, d: Point)
    requires Intersection(a, b, c, d).Some?
    ensures var k := Determinant(a, b, c, d);
      var t, u := NumeratorT(a, b, c, d) / k, NumeratorU(a, b, c, d) / k;
      && k != 0.0 && InUnit(t) && InUnit(u)
      && Intersection(a, b, c, d).value == Lerp(a, b, t)
      && Intersection(a, b, c, d).value == Lerp(c, d, u)
  {
    var k := Determinant(a, b, c, d);
    var t, u := NumeratorT(a, b, c, d) / k, NumeratorU(a, b, c, d) / k;
    SolveSystem(a.x - c.x, a.y - c.y, a.x - b.x, a.y - b.y, c.x - d.x, c.y - d.y,
      k, NumeratorT(a, b, c, d), NumeratorU(a, b, c, d), t, u);
    LerpEqualSystem(a, b, c, d, t, u);
  }

  /** The quotients of Cramer's rule solve `s == t * p - u * q`. */
  lemma SolveSystem(sx: real, sy: real, ux: real, uy: real, wx: real, wy: real,
                    k: real, T: real, U: real, t: real, u: real)
    requires k == ux * wy - uy * wx && k != 0.0
    requires T == sx * wy - sy * wx && U == sx * uy - sy * ux
    requires t == T / k && u == U / k
    ensures sx == t * ux - u * wx && sy == t * uy - u * wy
  {
    assert T * ux - U * wx == sx * k;
    assert T * uy - U * wy == sy * k;
    assert t * k == T && u * k == U;
    assert (t * ux - u * wx) * k == sx * k;
    assert (t * uy - u * wy) * k == sy * k;
    CancelFactor(t * ux - u * wx, sx, k);
    CancelFactor(t * uy - u * wy, sy, k);
  }

  lemma CancelFactor(x: real, y: real, k: real)
    requires k != 0.0 && x * k == y * k
    ensures x == y
  {
    assert (x - y) * k == 0.0;
  }

  /**
   * Conversely, segments with non-parallel directions that share a point are
   * reported, and the point returned is that shared point.
   */
  lemma {:induction false} IntersectionComplete(a: Point, b: Point, c: Point, d: Point, t: real, u: real)
    requires Determinant(a, b, c, d) != 0.0
    requires InUnit(t) && InUnit(u) && Lerp(a, b, t) == Lerp(c, d, u)
    ensures Intersection(a, b, c, d) == Some(Lerp(a, b, t))
  {
    var k := Determinant(a, b, c, d);
    LerpEqualSystem(a, b, c, d, t, u);
    CramerSolution(a.x - c.x, a.y - c.y, a.x - b.x, a.y - b.y, c.x - d.x, c.y - d.y, t, u);
    assert NumeratorT(a, b, c, d) == t * k;
    assert NumeratorU(a, b, c, d) == u * k;
    DivideProduct(t, k);
    DivideProduct(u, k);
  }

  /** Cramer's rule for `s == t * p - u * q`, written out. */
  lemma CramerSolution(sx: real, sy: real, px: real, py: real, qx: real, qy: real, t: real, u: real)
    requires sx == t * px - u * qx && sy == t * py - u * qy
    ensures sx * qy - sy * qx == t * (px * qy - py * qx)
    ensures sx * py - sy * px == u * (px * qy - py * qx)
  {
    assert sx * qy - sy * qx == (t * px - u * qx) * qy - (t * py - u * qy) * qx;
    assert sx * py - sy * px == (t * px - u * qx) * py - (t * py - u * qy) * px;
  }

  lemma DivideProduct(t: real, k: real)
    requires k != 0.0
    ensures (t * k) / k == t
  {
  }

  /** The segment test reports a point exactly when non-parallel segments share one. */
  lemma IntersectionCharacterized(a: Point, b: Point, c: Point, d: Point)
    ensures Intersection(a, b, c, d).Some? <==> Determinant(a, b, c, d) != 0.0 && SegmentsMeet(a, b, c, d)
  {
    if Intersection(a, b, c, d).Some? {
      IntersectionSound(a, b, c, d);
      var k := Determinant(a, b, c, d);
      var t, u := NumeratorT(a, b, c, d) / k, NumeratorU(a, b, c, d) / k;
      assert InUnit(t) && InUnit(u) && Lerp(a, b, t) == Lerp(c, d, u);
    }
    if Determinant(a, b, c, d) != 0.0 && SegmentsMeet(a, b, c, d) {
      var t: real, u: real :| InUnit(t) && InUnit(u) && Lerp(a, b, t) == Lerp(c, d, u);
      IntersectionComplete(a, b, c, d, t, u);
    }
  }

  /**
   * Collinear overlapping segments are not reported, a documented
   * simplification: parallel segments that share a point still give None.
   */
  lemma CollinearOverlapNotReported(a: Point, b: Point, c: Point, d: Point, t: real, u: real)
    requires Determinant(a, b, c, d) == 0.0
    requires InUnit(t) && InUnit(u) && Lerp(a, b, t) == Lerp(c, d, u)
    ensures SegmentsMeet(a, b, c, d)
    ensures Intersection(a, b, c, d).None?
  {
  }

  /**
   * Such pairs exist: `(0, 0)-(2, 0)` and `(1, 0)-(3, 0)` are parallel and
   * both pass through `(1, 0)`, and no intersection is reported for them.
   */
  lemma CollinearOverlapExample()
    ensures Determinant(Point(0.0, 0.0), Point(2.0, 0.0), Point(1.0, 0.0), Point(3.0, 0.0)) == 0.0
    ensures Lerp(Point(0.0, 0.0), Point(2.0, 0.0), 0.5) == Point(1.0, 0.0)
    ensures Lerp(Point(1.0, 0.0), Point(3.0, 0.0), 0.0) == Point(1.0, 0.0)
    ensures Intersection(Point(0.0, 0.0), Point(2.0, 0.0), Point(1.0, 0.0), Point(3.0, 0.0)).None?
  {
    CollinearDeterminant();
    FirstPassesThrough();
    SecondPassesThrough();
  }

  lemma CollinearDeterminant()
    ensures Determinant(Point(0.0, 0.0), Point(2.0, 0.0), Point(1.0, 0.0), Point(3.0, 0.0)) == 0.0
  {
  }

  lemma FirstPassesThrough()
    ensures Lerp(Point(0.0, 0.0), Point(2.0, 0.0), 0.5) == Point(1.0, 0.0)
  {
  }

  lemma SecondPassesThrough()
    ensures Lerp(Point(1.0, 0.0), Point(3.0, 0.0), 0.0) == Point(1.0, 0.0)
  {
  }

  /**
   * The reference order: smaller `y` first (on screen, the upper point),
   * equal `y` broken by smaller `x`.
   */
  predicate LexLess(p: Point, q: Point)
  {
    p.y < q.y || (p.y == q.y && p.x < q.x)
  }

  /** Two `y` values the tolerance cannot confuse: equal, or more than `e` apart. */
  predicate SeparatedY(p: Point, q: Point)
  {
    p.y == q.y || Abs(p.y - q.y) > Eps
  }

  /**
   * Order a segment's endpoints by `y`, with near-equal `y` (within `e`)
   * broken by `x`. The result is always a permutation of the arguments whose
   * first `y` exceeds the second by at most `e`; for separated `y` values it
   * is the reference order.
   */
  function SortPointsVertically(p1: Point, p2: Point): (r: (Point, Point))
    ensures r == (p1, p2) || r == (p2, p1)
    ensures r.0.y <= r.1.y + Eps
    ensures SeparatedY(p1, p2) ==> !LexLess(r.1, r.0)
  {
    if p1.y > p2.y || (ApproxEquals(p1.y, p2.y) && p1.x >= p2.x) then (p2, p1) else (p1, p2)
  }

  /** For separated `y` values the result does not depend on argument order. */
  lemma SortPointsVerticallySymmetric(p1: Point, p2: Point)
    requires SeparatedY(p1, p2)
    ensures SortPointsVertically(p1, p2) == SortPointsVertically(p2, p1)
  {
    assert SeparatedY(p2, p1);
  }

  /** Integer coordinates are always separated. */
  lemma IntegralSeparated(p: Point, q: Point)
    requires IntegralPoint(p) && IntegralPoint(q)
    ensures SeparatedY(p, q)
  {
    ApproxEqualsIntegral(p.y, q.y);
  }

  /**
   * Within the tolerance but not equal: when `q`'s `y` exceeds `p`'s by at
   * most `e`, the two argument orders give different pairs exactly when
   * `p` is not left of `q`.
   */
  lemma SortPointsVerticallyNearTie(p: Point, q: Point)
    requires p.y < q.y <= p.y + Eps
    ensures SortPointsVertically(p, q) != SortPointsVertically(q, p) <==> p.x >= q.x
  {
  }

  /** The signed area test both side-of-line predicates share. */
  function Orientation(p1: Point, p2: Point, p: Point): real
  {
    Multiply(VectorFromPoints(p1, p2), VectorFromPoints(p1, p))
  }

  /**
   * `p` is on or above the directed line `p1 -> p2` (above in the screen's
   * sense for a line running right); that is, on or below the reversed line.
   */
  predicate IsPointNotBelowLine(p1: Point, p2: Point, p: Point): (r: bool)
    ensures r <==> IsPointNotAboveLine(p2, p1, p)
  {
    OrientationSymmetries(p1, p2, p);
    OrientationSymmetries(p2, p, p1);
    Orientation(p1, p2, p) >= 0.0
  }

  /**
   * `p` is on or below the directed line `p1 -> p2`; that is, `p2` is on
   * or above the line `p1 -> p`.
   */
  predicate IsPointNotAboveLine(p1: Point, p2: Point, p: Point): (r: bool)
    ensures r <==> Orientation(p1, p, p2) >= 0.0
  {
    OrientationSymmetries(p1, p2, p);
    Orientation(p1, p2, p) <= 0.0
  }

  /**
   * A point on the line is on both sides; any other point is on exactly one.
   */
  lemma SideOfLine(p1: Point, p2: Point, p: Point)
    ensures IsPointNotBelowLine(p1, p2, p) && IsPointNotAboveLine(p1, p2, p) <==> Orientation(p1, p2, p) == 0.0
    ensures Orientation(p1, p2, p) != 0.0 ==> IsPointNotBelowLine(p1, p2, p) != IsPointNotAboveLine(p1, p2, p)
    ensures IsPointNotBelowLine(p1, p2, p) || IsPointNotAboveLine(p1, p2, p)
  {
  }

  /** The line's endpoints always lie on it. */
  lemma EndpointsOnLine(p1: Point, p2: Point)
    ensures Orientation(p1, p2, p1) == 0.0 && Orientation(p1, p2, p2) == 0.0
  {
    MultiplySelfZero(VectorFromPoints(p1, p2));
  }

  /**
   * With the screen's downward y axis and the line running right, "not below"
   * holds for points with smaller `y`, wherever along the line they are.
   */
  lemma SideOfLineExamples()
    ensures var p1, p2 := Point(10.0, 10.0), Point(20.0, 10.0);
      && IsPointNotBelowLine(p1, p2, Point(15.0, 5.0)) && IsPointNotBelowLine(p1, p2, Point(5.0, 5.0))
      && !IsPointNotBelowLine(p1, p2, Point(15.0, 15.0)) && !IsPointNotBelowLine(p1, p2, Point(5.0, 15.0))
      && !IsPointNotAboveLine(p1, p2, Point(15.0, 5.0)) && !IsPointNotAboveLine(p1, p2, Point(5.0, 5.0))
      && IsPointNotAboveLine(p1, p2, Point(15.0, 15.0)) && IsPointNotAboveLine(p1, p2, Point(5.0, 15.0))
  {
    var p1, p2 := Point(10.0, 10.0), Point(20.0, 10.0);
    assert Orientation(p1, p2, Point(15.0, 5.0)) == 50.0;
    assert Orientation(p1, p2, Point(5.0, 5.0)) == 50.0;
    assert Orientation(p1, p2, Point(15.0, 15.0)) == -50.0;
    assert Orientation(p1, p2, Point(5.0, 15.0)) == -50.0;
  }
}
