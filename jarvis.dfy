/**
 * The part of the gift-wrapping hull (`getConvexJarvis`) that the model
 * covers: the early return for small inputs and the scan that picks the
 * starting vertex.
 */
module Jarvis {
  import opened GeometryModel
  import opened Tolerance
  import opened Segments
  import opened ConvexHull

  /** What the first phase of the gift-wrapping hull produces. */
  datatype JarvisStart =
    | Unchanged(hull: Polygon)   // fewer than four points: returned as they are
    | StartAt(first: Point)      // the vertex the march starts from

  /** The scan's replacement test: `p` has smaller `y`, or `y` within `e` and smaller `x`. */
  predicate Precedes(p: Point, first: Point)
  {
    p.y < first.y || (ApproxEquals(p.y, first.y) && p.x < first.x)
  }

  /** Every two points have `y` values the tolerance cannot confuse. */
  predicate WellSeparated(pts: seq<Point>)
  {
    forall p, q :: p in pts && q in pts ==> SeparatedY(p, q)
  }

  /** Integer coordinates (what `roundPoint` produces) are always well separated. */
  lemma IntegralWellSeparated(pts: seq<Point>)
    requires forall p :: p in pts ==> IntegralPoint(p)
    ensures WellSeparated(pts)
  {
    forall p, q | p in pts && q in pts
      ensures SeparatedY(p, q)
    {
      IntegralSeparated(p, q);
    }
  }

  /**
   * The starting vertex after the scan has looked at the first `k` points,
   * beginning from `pts[0]`; it is always an input point.
   */
  function StartAmong(pts: seq<Point>, k: nat): (f: Point)
    requires 0 < |pts| && k <= |pts|
    ensures f in pts
  {
    if k == 0 then pts[0]
    else
      var f := StartAmong(pts, k - 1);
      if Precedes(pts[k - 1], f) then pts[k - 1] else f
  }

  /**
   * When the input is well separated, no point the scan has seen precedes its
   * choice in the `LexLess` order (smaller `y`, ties broken by smaller `x`).
   */
  lemma {:induction false} StartAmongMinimal(pts: seq<Point>, k: nat)
    requires 0 < |pts| && k <= |pts|
    requires WellSeparated(pts)
    ensures forall j :: 0 <= j < k ==> !LexLess(pts[j], StartAmong(pts, k))
  {
    if k > 0 {
      StartAmongMinimal(pts, k - 1);
      var f, p := StartAmong(pts, k - 1), pts[k - 1];
      assert SeparatedY(p, f);
      if Precedes(p, f) {
        assert LexLess(p, f);
        forall j | 0 <= j < k
          ensures !LexLess(pts[j], p)
        {
          if j < k - 1 {
            assert !LexLess(pts[j], f);
          }
        }
      } else {
        assert !LexLess(p, f);
      }
    }
  }

  /**
   * `getConvexJarvis` up to the start of the march: inputs of fewer than four
   * points are returned unchanged; otherwise the start is the point the scan
   * settles on, an input point that, for well-separated inputs, has the
   * smallest `y` and, among those, the smallest `x`.
   */
  method GetConvexJarvisStart(pts: seq<Point>) returns (s: JarvisStart)
    ensures s.Unchanged? <==> |pts| < 4
    ensures s.Unchanged? ==> s.hull == Polygon(pts)
    ensures s.StartAt? ==> s.first == StartAmong(pts, |pts|)
    ensures s.StartAt? ==> s.first in pts
    ensures s.StartAt? && WellSeparated(pts) ==> forall p :: p in pts ==> !LexLess(p, s.first)
  {
    if |pts| < 4 {
      return Unchanged(Polygon(pts));
    }
    var first := pts[0];
    for i := 0 to |pts|
      invariant first == StartAmong(pts, i)
    {
      var p := pts[i];
      if p.y < first.y {
        first := p;
      } else if ApproxEquals(p.y, first.y) && p.x < first.x {
        first := p;
      }
    }
    StartAmongMinimalAll(pts);
    return StartAt(first);
  }

  /** The same over the whole input, as the scan finishes. */
  lemma StartAmongMinimalAll(pts: seq<Point>)
    requires 0 < |pts|
    ensures WellSeparated(pts) ==> forall p :: p in pts ==> !LexLess(p, StartAmong(pts, |pts|))
  {
    if WellSeparated(pts) {
      StartAmongMinimal(pts, |pts|);
    }
  }

  /**
   * Within the tolerance the scan can drift to larger `y`: here it settles on
   * a point whose `y` is not the smallest.
   */
  lemma StartNearTie()
    ensures var pts := [Point(1.0, 0.0), Point(0.0, Eps / 2.0), Point(5.0, 5.0), Point(6.0, 6.0)];
      StartAmong(pts, 4) == pts[1] && pts[0].y < pts[1].y
  {
    var pts := [Point(1.0, 0.0), Point(0.0, Eps / 2.0), Point(5.0, 5.0), Point(6.0, 6.0)];
    assert StartAmong(pts, 1) == pts[0];
    assert StartAmong(pts, 2) == pts[1];
    assert StartAmong(pts, 3) == pts[1];
  }

  /** On the "square with dot" input the march starts from `(0, 0)`, its corner of smallest `y`. */
  lemma SquareWithDotStart()
    ensures StartAmong(SquareWithDot(), 5) == Point(0.0, 0.0)
  {
    var ps := SquareWithDot();
    IntegralWellSeparated(ps);
    StartAmongMinimal(ps, 5);
    assert !LexLess(ps[0], StartAmong(ps, 5));
  }
}
