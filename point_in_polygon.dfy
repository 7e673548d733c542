/**
 * Ray-casting point-in-polygon test: a horizontal ray from the point to a
 * far point right of every vertex, counting crossed edges, with a crossing
 * at an edge's second endpoint (the one of larger `y`) not counted.
 */
module PointInPolygon {
  import opened Wrappers
  import opened GeometryModel
  import opened Tolerance
  import opened Segments

  /** lodash `maxBy(points, p => p.x).x`: the largest `x` of any vertex. */
  function MaxX(points: seq<Point>): (m: real)
    requires |points| > 0
    ensures forall i :: 0 <= i < |points| ==> points[i].x <= m
    ensures exists i :: 0 <= i < |points| && points[i].x == m
  {
    if |points| == 1 then points[0].x
    else
      var rest := MaxX(points[1..]);
      assert forall i :: 1 <= i < |points| ==> points[i] == points[1..][i - 1];
      if points[0].x >= rest then points[0].x else rest
  }

  /** The ray's end: 100 to the right of the rightmost vertex, at the point's height. */
  function FarPoint(points: seq<Point>, p: Point): Point
    requires |points| > 0
  {
    Point(MaxX(points) + 100.0, p.y)
  }

  /** Edge `i` (vertex `i` to vertex `i + 1`, wrapping), the endpoint of smaller `y` first. */
  function Edge(points: seq<Point>, i: nat): (Point, Point)
    requires i < |points|
  {
    SortPointsVertically(points[i], points[(i + 1) % |points|])
  }

  /** The ray crosses edge `i` somewhere other than at the edge's second endpoint. */
  predicate EdgeCounted(points: seq<Point>, p: Point, i: nat)
    requires i < |points|
  {
    var (a, b) := Edge(points, i);
    var q := Intersection(a, b, p, FarPoint(points, p));
    q.Some? && !PointsApproxEquals(b, q.value)
  }

  /** The number of counted edges among the first `n`. */
  function CrossingCount(points: seq<Point>, p: Point, n: nat): (c: nat)
    requires n <= |points|
    ensures c <= n
  {
    if n == 0 then 0
    else CrossingCount(points, p, n - 1) + (if EdgeCounted(points, p, n - 1) then 1 else 0)
  }

  /** The answer the test gives: a polygon without points contains nothing, otherwise parity. */
  predicate InPolygon(poly: Polygon, p: Point)
  {
    |poly.points| > 0 && CrossingCount(poly.points, p, |poly.points|) % 2 == 1
  }

  /** `isPointInPolygon`: counts the crossings edge by edge and answers by parity. */
  method IsPointInPolygon(poly: Polygon, p: Point) returns (inside: bool)
    ensures inside == InPolygon(poly, p)
    ensures inside ==> |poly.points| > 0
  {
    var intersections := 0;
    var points := poly.points;
    if |points| == 0 {
      return false;
    }
    var farPoint := Point(MaxX(points) + 100.0, p.y);
    for i := 0 to |points|
      invariant intersections == CrossingCount(points, p, i)
    {
      var (a, b) := SortPointsVertically(points[i], points[(i + 1) % |points|]);
      var q := Intersection(a, b, p, farPoint);
      if q.Some? && !PointsApproxEquals(b, q.value) {
        intersections := intersections + 1;
      }
    }
    return intersections % 2 == 1;
  }

  /** A point of a segment lies within the segment's bounding box. */
  lemma LerpBetween(a: Point, b: Point, t: real)
    requires InUnit(t)
    ensures var q := Lerp(a, b, t);
      && (a.x <= q.x <= b.x || b.x <= q.x <= a.x)
      && (a.y <= q.y <= b.y || b.y <= q.y <= a.y)
  {
    var q := Lerp(a, b, t);
    LerpBetween1(a.x, b.x, t, q.x);
    LerpBetween1(a.y, b.y, t, q.y);
  }

  lemma LerpBetween1(a: real, b: real, t: real, v: real)
    requires InUnit(t) && v == a + t * (b - a)
    ensures a <= v <= b || b <= v <= a
  {
    var d := b - a;
    if a <= b {
      MulNonnegative(t, d);
      MulNonnegative(1.0 - t, d);
      assert (1.0 - t) * d == d - t * d;
    } else {
      MulNonnegative(t, -d);
      MulNonnegative(1.0 - t, -d);
      assert (1.0 - t) * -d == t * d - d;
      assert t * -d == -(t * d);
    }
  }

  lemma MulNonnegative(x: real, y: real)
    requires x >= 0.0 && y >= 0.0
    ensures x * y >= 0.0
  {
  }

  /** Edge `i` joins vertex `i` and the next vertex (vertex 0 after the last); the first `y` exceeds the second by at most `e`. */
  lemma EdgeEndpoints(points: seq<Point>, i: nat)
    requires i < |points|
    ensures var j := if i + 1 == |points| then 0 else i + 1;
      var (a, b) := Edge(points, i);
      && ((a, b) == (points[i], points[j]) || (a, b) == (points[j], points[i]))
      && a.y <= b.y + Eps
  {
  }

  /**
   * Where the ray meets an edge, the crossing point is at the point's height,
   * between the point and the far point, and inside the edge's bounding box.
   */
  lemma {:induction false} CrossingOnRayAndEdge(points: seq<Point>, p: Point, i: nat)
    requires i < |points|
    requires var (a, b) := Edge(points, i);
      Intersection(a, b, p, FarPoint(points, p)).Some?
    ensures var (a, b) := Edge(points, i);
      var q := Intersection(a, b, p, FarPoint(points, p)).value;
      && q.y == p.y
      && (p.x <= q.x <= FarPoint(points, p).x || FarPoint(points, p).x <= q.x <= p.x)
      && (a.y <= q.y <= b.y || b.y <= q.y <= a.y)
      && (a.x <= q.x <= b.x || b.x <= q.x <= a.x)
  {
    var (a, b) := Edge(points, i);
    var far := FarPoint(points, p);
    IntersectionSound(a, b, p, far);
    var k := Determinant(a, b, p, far);
    var t, u := NumeratorT(a, b, p, far) / k, NumeratorU(a, b, p, far) / k;
    LerpBetween(a, b, t);
    LerpBetween(p, far, u);
  }

  /** No counted edge, no crossings: the point is outside. */
  lemma OutsideWhenNoEdgeCounted(poly: Polygon, p: Point)
    requires forall i :: 0 <= i < |poly.points| ==> !EdgeCounted(poly.points, p, i)
    ensures !InPolygon(poly, p)
  {
    NoCountedEdgeNoCrossing(poly.points, p, |poly.points|);
  }

  /** With no counted edge among the first `n`, the count is zero. */
  lemma {:induction false} NoCountedEdgeNoCrossing(points: seq<Point>, p: Point, n: nat)
    requires n <= |points|
    requires forall i :: 0 <= i < n ==> !EdgeCounted(points, p, i)
    ensures CrossingCount(points, p, n) == 0
  {
    if n > 0 {
      NoCountedEdgeNoCrossing(points, p, n - 1);
    }
  }

  /** A polygon without points contains nothing. */
  lemma EmptyPolygonContainsNothing(p: Point)
    ensures !InPolygon(Polygon([]), p)
  {
  }

  /** A point above (smaller `y` than) every vertex is outside. */
  lemma OutsideAboveAllVertices(poly: Polygon, p: Point)
    requires forall i :: 0 <= i < |poly.points| ==> p.y < poly.points[i].y
    ensures !InPolygon(poly, p)
  {
    forall i | 0 <= i < |poly.points|
      ensures !EdgeCounted(poly.points, p, i)
    {
      var (a, b) := Edge(poly.points, i);
      if Intersection(a, b, p, FarPoint(poly.points, p)).Some? {
        CrossingOnRayAndEdge(poly.points, p, i);
        EdgeEndpoints(poly.points, i);
      }
    }
    OutsideWhenNoEdgeCounted(poly, p);
  }

  /** A point below (larger `y` than) every vertex is outside. */
  lemma OutsideBelowAllVertices(poly: Polygon, p: Point)
    requires forall i :: 0 <= i < |poly.points| ==> p.y > poly.points[i].y
    ensures !InPolygon(poly, p)
  {
    forall i | 0 <= i < |poly.points|
      ensures !EdgeCounted(poly.points, p, i)
    {
      var (a, b) := Edge(poly.points, i);
      if Intersection(a, b, p, FarPoint(poly.points, p)).Some? {
        CrossingOnRayAndEdge(poly.points, p, i);
        EdgeEndpoints(poly.points, i);
      }
    }
    OutsideWhenNoEdgeCounted(poly, p);
  }

  /** A point strictly right of every vertex is outside. */
  lemma OutsideRightOfAllVertices(poly: Polygon, p: Point)
    requires forall i :: 0 <= i < |poly.points| ==> p.x > poly.points[i].x
    ensures !InPolygon(poly, p)
  {
    forall i | 0 <= i < |poly.points|
      ensures !EdgeCounted(poly.points, p, i)
    {
      var (a, b) := Edge(poly.points, i);
      if Intersection(a, b, p, FarPoint(poly.points, p)).Some? {
        CrossingOnRayAndEdge(poly.points, p, i);
        EdgeEndpoints(poly.points, i);
      }
    }
    OutsideWhenNoEdgeCounted(poly, p);
  }

  function Square(): Polygon
  {
    Polygon([Point(0.0, 0.0), Point(10.0, 0.0), Point(10.0, 10.0), Point(0.0, 10.0)])
  }

  /** The unit-test square contains its centre: only the right edge is crossed. */
  lemma SquareContainsCentre()
    ensures InPolygon(Square(), Point(5.0, 5.0))
  {
    var ps, p := Square().points, Point(5.0, 5.0);
    SquareEdge0(); SquareEdge1(); SquareEdge2(); SquareEdge3();
    assert CrossingCount(ps, p, 4) == 1;
  }

  lemma SquareEdge0()
    ensures !EdgeCounted(Square().points, Point(5.0, 5.0), 0)
  {
    assert MaxX(Square().points) == 10.0;
    assert Edge(Square().points, 0) == (Point(0.0, 0.0), Point(10.0, 0.0));
    assert Determinant(Point(0.0, 0.0), Point(10.0, 0.0), Point(5.0, 5.0), Point(110.0, 5.0)) == 0.0;
  }

  lemma SquareEdge1()
    ensures EdgeCounted(Square().points, Point(5.0, 5.0), 1)
  {
    var a, b, p, far := Point(10.0, 0.0), Point(10.0, 10.0), Point(5.0, 5.0), Point(110.0, 5.0);
    assert MaxX(Square().points) == 10.0;
    assert Edge(Square().points, 1) == (a, b);
    assert Determinant(a, b, p, far) == -1050.0;
    assert NumeratorT(a, b, p, far) == -525.0;
    assert NumeratorU(a, b, p, far) == -50.0;
    assert Intersection(a, b, p, far) == Some(Point(10.0, 5.0));
  }

  lemma SquareEdge2()
    ensures !EdgeCounted(Square().points, Point(5.0, 5.0), 2)
  {
    assert MaxX(Square().points) == 10.0;
    assert Edge(Square().points, 2) == (Point(0.0, 10.0), Point(10.0, 10.0));
    assert Determinant(Point(0.0, 10.0), Point(10.0, 10.0), Point(5.0, 5.0), Point(110.0, 5.0)) == 0.0;
  }

  lemma SquareEdge3()
    ensures !EdgeCounted(Square().points, Point(5.0, 5.0), 3)
  {
    var a, b, p, far := Point(0.0, 0.0), Point(0.0, 10.0), Point(5.0, 5.0), Point(110.0, 5.0);
    assert MaxX(Square().points) == 10.0;
    assert Edge(Square().points, 3) == (a, b);
    assert Determinant(a, b, p, far) == -1050.0;
    assert NumeratorU(a, b, p, far) == 50.0;
    assert NumeratorU(a, b, p, far) / Determinant(a, b, p, far) < 0.0;
  }

  /** A point beyond the square's corner is outside. */
  lemma SquareExcludesFarPoint()
    ensures !InPolygon(Square(), Point(15.0, 15.0))
  {
    OutsideBelowAllVertices(Square(), Point(15.0, 15.0));
  }
}
