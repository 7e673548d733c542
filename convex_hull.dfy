/**
 * The parts of the brute-force (triangle) convex hull that need no
 * trigonometry: the centroid, with the re-centring step of the convex
 * generator that uses it, and the elimination phase.
 */
module ConvexHull {
  import opened Wrappers
  import opened GeometryModel
  import opened Vectors
  import opened Tolerance
  import opened Segments
  import opened PointInPolygon

  function SumX(points: seq<Point>): real
  {
    if |points| == 0 then 0.0 else SumX(points[..|points| - 1]) + points[|points| - 1].x
  }

  function SumY(points: seq<Point>): real
  {
    if |points| == 0 then 0.0 else SumY(points[..|points| - 1]) + points[|points| - 1].y
  }

  /** The centroid of the vertices; the source's `0 / 0` (NaN) for no vertices is None. */
  function GetCenter(points: seq<Point>): (c: Option<Point>)
    ensures c.None? <==> |points| == 0
  {
    if |points| == 0 then None
    else Some(Point(SumX(points) / |points| as real, SumY(points) / |points| as real))
  }

  /** All vertices moved by the same vector. */
  function Translate(points: seq<Point>, v: Vector): (r: seq<Point>)
    ensures |r| == |points|
    ensures forall i :: 0 <= i < |points| ==> r[i] == AppendToPoint(v, points[i])
  {
    seq(|points|, i requires 0 <= i < |points| => AppendToPoint(v, points[i]))
  }

  lemma {:induction false} SumTranslate(points: seq<Point>, v: Vector)
    ensures SumX(Translate(points, v)) == SumX(points) + |points| as real * v.x
    ensures SumY(Translate(points, v)) == SumY(points) + |points| as real * v.y
  {
    if |points| > 0 {
      var n := |points|;
      var init := points[..n - 1];
      SumTranslate(init, v);
      assert Translate(points, v)[..n - 1] == Translate(init, v);
      assert (n - 1) as real * v.x + v.x == n as real * v.x;
      assert (n - 1) as real * v.y + v.y == n as real * v.y;
    }
  }

  lemma MeanShift(s: real, n: real, d: real)
    requires n > 0.0
    ensures (s + n * d) / n == s / n + d
  {
    assert (s / n + d) * n == s + n * d;
  }

  /** Moving every vertex by a vector moves the centroid by the same vector. */
  lemma CenterTranslates(points: seq<Point>, v: Vector)
    requires |points| > 0
    ensures GetCenter(Translate(points, v)) == Some(AppendToPoint(v, GetCenter(points).value))
  {
    SumTranslate(points, v);
    var n := |points| as real;
    var moved := Translate(points, v);
    MeanShift(SumX(points), n, v.x);
    MeanShift(SumY(points), n, v.y);
    assert GetCenter(moved) == Some(Point(SumX(moved) / n, SumY(moved) / n));
    assert SumX(moved) / n == SumX(points) / n + v.x;
    assert SumY(moved) / n == SumY(points) / n + v.y;
  }

  /**
   * The centroid is the mean of the vertices: the displacements of the
   * vertices from it sum to zero in each coordinate, which fixes it.
   */
  lemma CenterIsMean(points: seq<Point>)
    requires |points| > 0
    ensures var c := GetCenter(points).value;
      var offsets := Translate(points, VectorFromPoints(c, Point(0.0, 0.0)));
      SumX(offsets) == 0.0 && SumY(offsets) == 0.0
  {
    var c := GetCenter(points).value;
    var n := |points| as real;
    SumTranslate(points, VectorFromPoints(c, Point(0.0, 0.0)));
    assert n * (SumX(points) / n) == SumX(points);
    assert n * (SumY(points) / n) == SumY(points);
  }

  /**
   * The recentring step of the convex generator: subtracting the centroid and
   * adding the requested centre leaves the requested centre as centroid.
   */
  lemma RecenteredCentroid(points: seq<Point>, center: Point)
    requires |points| > 0
    ensures var c := GetCenter(points).value;
      GetCenter(Translate(points, VectorFromPoints(c, center))) == Some(center)
  {
    var c := GetCenter(points).value;
    CenterTranslates(points, VectorFromPoints(c, center));
    AppendVectorFromPoints(c, center, VectorFromPoints(c, center));
  }

  /**
   * The vertices at indices `i1`, `i2`, `i3` are all away from `pt` (not
   * approximately equal to it) and the triangle they form contains it.
   */
  predicate Hit(points: seq<Point>, pt: Point, i1: nat, i2: nat, i3: nat)
    requires i1 < |points| && i2 < |points| && i3 < |points|
  {
    && !PointsApproxEquals(pt, points[i1])
    && !PointsApproxEquals(pt, points[i2])
    && !PointsApproxEquals(pt, points[i3])
    && InPolygon(Polygon([points[i1], points[i2], points[i3]]), pt)
  }

  /** `pt` lies inside a triangle of three input points, none of them (approximately) `pt`. */
  ghost predicate Eliminated(points: seq<Point>, pt: Point)
  {
    exists i1: nat, i2: nat, i3: nat ::
      i1 < |points| && i2 < |points| && i3 < |points| && Hit(points, pt, i1, i2, i3)
  }

  /** One step of the innermost loop: skip triangles touching `pt`, else run the ray test. */
  method TriangleHit(points: seq<Point>, pt: Point, i1: nat, i2: nat, i3: nat) returns (hit: bool)
    requires i1 < |points| && i2 < |points| && i3 < |points|
    ensures hit == Hit(points, pt, i1, i2, i3)
  {
    var p1, p2, p3 := points[i1], points[i2], points[i3];
    if PointsApproxEquals(pt, p1) || PointsApproxEquals(pt, p2) || PointsApproxEquals(pt, p3) {
      return false;
    }
    hit := IsPointInPolygon(Polygon([p1, p2, p3]), pt);
  }

  /** The innermost loop: the first `c` whose triangle `(i1, i2, c)` contains `pt`, if any. */
  method SearchThird(points: seq<Point>, pt: Point, i1: nat, i2: nat) returns (found: bool, i3: nat)
    requires i1 < |points| && i2 < |points|
    ensures found ==> i3 < |points| && Hit(points, pt, i1, i2, i3)
    ensures !found ==> forall c: nat :: c < |points| ==> !Hit(points, pt, i1, i2, c)
  {
    for k := 0 to |points|
      invariant forall c: nat :: c < k ==> !Hit(points, pt, i1, i2, c)
    {
      var hit := TriangleHit(points, pt, i1, i2, k);
      if hit {
        return true, k;
      }
    }
    return false, 0;
  }

  /** No triangle with first vertex `i1` is a hit. */
  ghost predicate NoHitFrom(points: seq<Point>, pt: Point, i1: nat)
  {
    forall b: nat, c: nat :: i1 < |points| && b < |points| && c < |points| ==> !Hit(points, pt, i1, b, c)
  }

  /** The middle loop: the first `(b, c)` whose triangle `(i1, b, c)` contains `pt`, if any. */
  method SearchSecond(points: seq<Point>, pt: Point, i1: nat) returns (found: bool, i2: nat, i3: nat)
    requires i1 < |points|
    ensures found ==> i2 < |points| && i3 < |points| && Hit(points, pt, i1, i2, i3)
    ensures !found ==> NoHitFrom(points, pt, i1)
  {
    for k := 0 to |points|
      invariant forall b: nat, c: nat :: b < k && c < |points| ==> !Hit(points, pt, i1, b, c)
    {
      var hit, j := SearchThird(points, pt, i1, k);
      if hit {
        return true, k, j;
      }
    }
    return false, 0, 0;
  }

  /**
   * The three inner loops of the brute-force hull, leaving at the first
   * containing triangle (the source's `continue p`).
   */
  method InsideSomeTriangle(points: seq<Point>, pt: Point) returns (found: bool)
    ensures found == Eliminated(points, pt)
  {
    for k := 0 to |points|
      invariant forall a: nat :: a < k ==> NoHitFrom(points, pt, a)
    {
      var hit, j2, j3 := SearchSecond(points, pt, k);
      if hit {
        assert Hit(points, pt, k, j2, j3);
        return true;
      }
    }
    forall a: nat, b: nat, c: nat | a < |points| && b < |points| && c < |points|
      ensures !Hit(points, pt, a, b, c)
    {
      assert NoHitFrom(points, pt, a);
    }
    return false;
  }

  /** The candidates, in order, that are not eliminated against `points`. */
  ghost function SurvivorsAmong(points: seq<Point>, candidates: seq<Point>): (r: seq<Point>)
    ensures |r| <= |candidates|
  {
    if |candidates| == 0 then []
    else
      var last := candidates[|candidates| - 1];
      SurvivorsAmong(points, candidates[..|candidates| - 1]) + (if Eliminated(points, last) then [] else [last])
  }

  ghost function Survivors(points: seq<Point>): seq<Point>
  {
    SurvivorsAmong(points, points)
  }

  /**
   * The elimination phase of `getConvexSimple`: every input point found inside
   * a triangle of three other points is dropped; the rest keep their order.
   */
  method EliminateInteriorPoints(points: seq<Point>) returns (kept: seq<Point>)
    ensures kept == Survivors(points)
  {
    kept := [];
    for i := 0 to |points|
      invariant kept == SurvivorsAmong(points, points[..i])
    {
      var pt := points[i];
      var eliminated := InsideSomeTriangle(points, pt);
      assert points[..i + 1][..i] == points[..i];
      if !eliminated {
        kept := kept + [pt];
      }
    }
    assert points[..|points|] == points;
  }

  /** A survivor is an input point that no triangle contains, and every such point survives. */
  lemma {:induction false} SurvivorsAmongMembers(points: seq<Point>, candidates: seq<Point>, q: Point)
    ensures q in SurvivorsAmong(points, candidates) <==> q in candidates && !Eliminated(points, q)
  {
    if |candidates| > 0 {
      var init, last := candidates[..|candidates| - 1], candidates[|candidates| - 1];
      SurvivorsAmongMembers(points, init, q);
      assert candidates == init + [last];
    }
  }

  lemma SurvivorsMembers(points: seq<Point>, q: Point)
    ensures q in Survivors(points) <==> q in points && !Eliminated(points, q)
  {
    SurvivorsAmongMembers(points, points, q);
  }

  /**
   * A point whose `y` is strictly smaller than that of every input point away
   * from it is never eliminated.
   */
  lemma SmallestYSurvives(points: seq<Point>, pt: Point)
    requires forall i :: 0 <= i < |points| && !PointsApproxEquals(pt, points[i]) ==> pt.y < points[i].y
    ensures !Eliminated(points, pt)
  {
    forall i1: nat, i2: nat, i3: nat | i1 < |points| && i2 < |points| && i3 < |points|
      ensures !Hit(points, pt, i1, i2, i3)
    {
      if !PointsApproxEquals(pt, points[i1]) && !PointsApproxEquals(pt, points[i2]) && !PointsApproxEquals(pt, points[i3]) {
        OutsideAboveAllVertices(Polygon([points[i1], points[i2], points[i3]]), pt);
      }
    }
  }

  /** Likewise for a strictly largest `y`. */
  lemma LargestYSurvives(points: seq<Point>, pt: Point)
    requires forall i :: 0 <= i < |points| && !PointsApproxEquals(pt, points[i]) ==> pt.y > points[i].y
    ensures !Eliminated(points, pt)
  {
    forall i1: nat, i2: nat, i3: nat | i1 < |points| && i2 < |points| && i3 < |points|
      ensures !Hit(points, pt, i1, i2, i3)
    {
      if !PointsApproxEquals(pt, points[i1]) && !PointsApproxEquals(pt, points[i2]) && !PointsApproxEquals(pt, points[i3]) {
        OutsideBelowAllVertices(Polygon([points[i1], points[i2], points[i3]]), pt);
      }
    }
  }

  /** Likewise for a strictly largest `x`. */
  lemma LargestXSurvives(points: seq<Point>, pt: Point)
    requires forall i :: 0 <= i < |points| && !PointsApproxEquals(pt, points[i]) ==> pt.x > points[i].x
    ensures !Eliminated(points, pt)
  {
    forall i1: nat, i2: nat, i3: nat | i1 < |points| && i2 < |points| && i3 < |points|
      ensures !Hit(points, pt, i1, i2, i3)
    {
      if !PointsApproxEquals(pt, points[i1]) && !PointsApproxEquals(pt, points[i2]) && !PointsApproxEquals(pt, points[i3]) {
        OutsideRightOfAllVertices(Polygon([points[i1], points[i2], points[i3]]), pt);
      }
    }
  }

  /** The "square with dot" input of the hull's unit tests. */
  function SquareWithDot(): seq<Point>
  {
    [Point(0.0, 0.0), Point(10.0, 1.0), Point(11.0, 9.0), Point(5.0, 5.0), Point(1.0, 10.0)]
  }

  /**
   * On that input the dot `(5, 5)` is eliminated and the corners `(0, 0)`,
   * `(11, 9)` and `(1, 10)` survive.
   */
  lemma SquareWithDotElimination()
    ensures Eliminated(SquareWithDot(), Point(5.0, 5.0))
    ensures !Eliminated(SquareWithDot(), Point(0.0, 0.0))
    ensures !Eliminated(SquareWithDot(), Point(11.0, 9.0))
    ensures !Eliminated(SquareWithDot(), Point(1.0, 10.0))
  {
    DotEliminated();
    SmallestYCornerSurvives();
    LargestXCornerSurvives();
    LargestYCornerSurvives();
  }

  lemma DotEliminated()
    ensures Eliminated(SquareWithDot(), Point(5.0, 5.0))
  {
    DotInsideTriangle();
    assert Hit(SquareWithDot(), Point(5.0, 5.0), 0, 2, 4);
  }

  lemma SmallestYCornerSurvives()
    ensures !Eliminated(SquareWithDot(), Point(0.0, 0.0))
  {
    var ps, pt := SquareWithDot(), Point(0.0, 0.0);
    assert forall i :: 1 <= i < |ps| ==> pt.y < ps[i].y;
    SmallestYSurvives(ps, pt);
  }

  lemma LargestXCornerSurvives()
    ensures !Eliminated(SquareWithDot(), Point(11.0, 9.0))
  {
    var ps, pt := SquareWithDot(), Point(11.0, 9.0);
    assert forall i :: 0 <= i < |ps| && i != 2 ==> pt.x > ps[i].x;
    LargestXSurvives(ps, pt);
  }

  lemma LargestYCornerSurvives()
    ensures !Eliminated(SquareWithDot(), Point(1.0, 10.0))
  {
    var ps, pt := SquareWithDot(), Point(1.0, 10.0);
    assert forall i :: 0 <= i < 4 ==> pt.y > ps[i].y;
    LargestYSurvives(ps, pt);
  }

  function DotTriangle(): seq<Point>
  {
    [Point(0.0, 0.0), Point(11.0, 9.0), Point(1.0, 10.0)]
  }

  /** The triangle of the first, third and fifth input points contains the dot: one edge is crossed. */
  lemma DotInsideTriangle()
    ensures InPolygon(Polygon(DotTriangle()), Point(5.0, 5.0))
  {
    DotEdge0(); DotEdge1(); DotEdge2();
    assert CrossingCount(DotTriangle(), Point(5.0, 5.0), 3) == 1;
  }

  lemma DotEdge0()
    ensures EdgeCounted(DotTriangle(), Point(5.0, 5.0), 0)
  {
    var a, b, p, far := Point(0.0, 0.0), Point(11.0, 9.0), Point(5.0, 5.0), Point(111.0, 5.0);
    assert MaxX(DotTriangle()) == 11.0;
    assert Edge(DotTriangle(), 0) == (a, b);
    assert Determinant(a, b, p, far) == -954.0;
    assert NumeratorT(a, b, p, far) == -530.0;
    assert NumeratorU(a, b, p, far) == -10.0;
    assert Intersection(a, b, p, far) == Some(Point(55.0 / 9.0, 5.0));
  }

  lemma DotEdge1()
    ensures !EdgeCounted(DotTriangle(), Point(5.0, 5.0), 1)
  {
    var a, b, p, far := Point(11.0, 9.0), Point(1.0, 10.0), Point(5.0, 5.0), Point(111.0, 5.0);
    assert MaxX(DotTriangle()) == 11.0;
    assert Edge(DotTriangle(), 1) == (a, b);
    assert Determinant(a, b, p, far) == -106.0;
    assert NumeratorT(a, b, p, far) == 424.0;
    assert NumeratorT(a, b, p, far) / Determinant(a, b, p, far) < 0.0;
  }

  lemma DotEdge2()
    ensures !EdgeCounted(DotTriangle(), Point(5.0, 5.0), 2)
  {
    var a, b, p, far := Point(0.0, 0.0), Point(1.0, 10.0), Point(5.0, 5.0), Point(111.0, 5.0);
    assert MaxX(DotTriangle()) == 11.0;
    assert Edge(DotTriangle(), 2) == (a, b);
    assert Determinant(a, b, p, far) == -1060.0;
    assert NumeratorU(a, b, p, far) == 45.0;
    assert NumeratorU(a, b, p, far) / Determinant(a, b, p, far) < 0.0;
  }
}
