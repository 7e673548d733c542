/**
 * The point/polygon value model: plain immutable values, replaced wholesale
 * (copy-on-write) whenever one of their points changes.
 */
module GeometryModel {

  /** A location in the plane; coordinates are exact reals. */
  datatype Point = Point(x: real, y: real)

  /** An ordered sequence of vertices; the closing edge last -> first is implicit. */
  datatype Polygon = Polygon(points: seq<Point>)

  /**
   * The source distinguishes the two cases structurally (a value with `x`
   * and `y` fields is a point); here they are two tagged constructors.
   */
  datatype GeometryObject = PointObject(point: Point) | PolygonObject(polygon: Polygon)

  /** The structural discriminator: a point, not a polygon. */
  predicate IsPoint(o: GeometryObject)
    ensures IsPoint(o) <==> |GetPoints(o)| == 1 && o == PointObject(GetPoints(o)[0])
  {
    o.PointObject?
  }

  /** The vertices of an object: a point is its own single vertex. */
  function GetPoints(o: GeometryObject): (ps: seq<Point>)
    ensures o.PointObject? ==> ps == [o.point]
    ensures o.PolygonObject? ==> ps == o.polygon.points
  {
    match o
    case PointObject(p) => [p]
    case PolygonObject(poly) => poly.points
  }

  function Min(a: int, b: int): int { if a <= b then a else b }

  /**
   * Copy-on-write replacement of vertex `i`. A point is replaced by `q`
   * whatever the index. For a polygon the result is
   * `[...points.slice(0, i), q, ...points.slice(i + 1)]`, where JavaScript's
   * `slice` clamps indices past the end, so an index at or beyond the length
   * appends `q`.
   */
  function SetPoint(i: nat, o: GeometryObject, q: Point): (r: GeometryObject)
    ensures o.PointObject? ==> r == PointObject(q)
    ensures o.PolygonObject? ==> r.PolygonObject?
  {
    match o
    case PointObject(_) => PointObject(q)
    case PolygonObject(poly) =>
      var ps := poly.points;
      PolygonObject(Polygon(ps[..Min(i, |ps|)] + [q] + ps[Min(i + 1, |ps|)..]))
  }

  /** Replacing an existing vertex keeps the length, puts `q` at `i` and nothing else changes. */
  lemma SetPointReplaces(i: nat, poly: Polygon, q: Point)
    requires i < |poly.points|
    ensures var ps := GetPoints(SetPoint(i, PolygonObject(poly), q));
      && |ps| == |poly.points|
      && ps[i] == q
      && forall j :: 0 <= j < |ps| && j != i ==> ps[j] == poly.points[j]
  {
  }

  /** An index at or past the end appends `q`: the page that adds a vertex relies on it. */
  lemma SetPointAppends(i: nat, poly: Polygon, q: Point)
    requires i >= |poly.points|
    ensures GetPoints(SetPoint(i, PolygonObject(poly), q)) == poly.points + [q]
  {
    var ps := poly.points;
    assert ps[..|ps|] == ps;
  }

  /** Setting a vertex never changes the kind of object. */
  lemma SetPointKeepsKind(i: nat, o: GeometryObject, q: Point)
    ensures IsPoint(SetPoint(i, o, q)) == IsPoint(o)
  {
  }

  /** `Math.round`: the nearest integer, halves rounded up (towards +infinity). */
  function Round(v: real): (n: int)
    ensures v - 0.5 < n as real <= v + 0.5
  {
    (v + 0.5).Floor
  }

  /** A round number is its own rounding. */
  lemma RoundIntegral(n: int)
    ensures Round(n as real) == n
  {
    assert (n as real + 0.5).Floor == n;
  }

  predicate IsIntegral(v: real) { v == v.Floor as real }

  /** A point with integer coordinates, as every caller produces through `RoundPoint`. */
  predicate IntegralPoint(p: Point) { IsIntegral(p.x) && IsIntegral(p.y) }

  function RoundPoint(p: Point): (r: Point)
    ensures IntegralPoint(r)
    ensures p.x - 0.5 < r.x <= p.x + 0.5 && p.y - 0.5 < r.y <= p.y + 0.5
  {
    Point(Round(p.x) as real, Round(p.y) as real)
  }

  /** Rounding is idempotent, and leaves integer points alone. */
  lemma RoundPointIdempotent(p: Point)
    ensures IntegralPoint(p) ==> RoundPoint(p) == p
    ensures RoundPoint(RoundPoint(p)) == RoundPoint(p)
  {
    RoundIntegral(Round(p.x));
    RoundIntegral(Round(p.y));
    RoundIntegral(p.x.Floor);
    RoundIntegral(p.y.Floor);
  }
}
