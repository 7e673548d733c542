/**
 * The convexity test: the turn at every vertex is the cross product of the
 * incoming and outgoing edges; a polygon is convex unless both a clearly left
 * and a clearly right turn occur (near-zero turns, collinear vertices, are
 * ignored).
 */
module Convexity {
  import opened GeometryModel
  import opened Vectors
  import opened Tolerance

  /** The turn at vertex `i`, neighbours taken circularly through `Mod`. */
  function Turn(points: seq<Point>, i: nat): real
    requires i < |points|
  {
    var len := |points|;
    var p1 := points[Mod(i - 1, len)];
    var p2 := points[i];
    var p3 := points[Mod(i + 1, len)];
    Multiply(VectorFromPoints(p1, p2), VectorFromPoints(p2, p3))
  }

  /** The turn at `i` is not negligible and its sign is `positive`. */
  predicate SignificantTurn(points: seq<Point>, i: nat, positive: bool)
    requires i < |points|
  {
    !ApproxEquals(Turn(points, i), 0.0) && (Turn(points, i) > 0.0) == positive
  }

  /** Some vertex turns clearly in the direction `positive`. */
  ghost predicate HasTurn(points: seq<Point>, positive: bool)
  {
    exists i :: 0 <= i < |points| && SignificantTurn(points, i, positive)
  }

  /**
   * The reference definition: fewer than four vertices, or not both turning
   * directions present.
   */
  ghost predicate IsConvex(points: seq<Point>)
  {
    |points| < 4 || !(HasTurn(points, true) && HasTurn(points, false))
  }

  /** A set of booleans has two elements exactly when it holds both. */
  lemma BoolSetSize(s: set<bool>)
    ensures |s| == 2 <==> true in s && false in s
  {
    if true in s && false in s {
      assert forall b: bool :: b in s <==> b in {true, false};
      assert s == {true, false};
    } else if true in s {
      assert forall b: bool :: b in s <==> b in {true};
      assert s == {true};
    } else if false in s {
      assert forall b: bool :: b in s <==> b in {false};
      assert s == {false};
    } else {
      assert forall b: bool :: b !in s;
      assert s == {};
    }
  }

  /** The signs recorded for the first `n` vertices. */
  function SignsUpTo(points: seq<Point>, n: nat): set<bool>
    requires n <= |points|
  {
    if n == 0 then {}
    else
      var t := Turn(points, n - 1);
      SignsUpTo(points, n - 1) + (if !ApproxEquals(t, 0.0) then {t > 0.0} else {})
  }

  /** A sign is recorded exactly when some vertex turns clearly that way. */
  lemma {:induction false} SignsUpToMembers(points: seq<Point>, n: nat, b: bool)
    requires n <= |points|
    ensures b in SignsUpTo(points, n) <==> exists j :: 0 <= j < n && SignificantTurn(points, j, b)
  {
    if n > 0 {
      SignsUpToMembers(points, n - 1, b);
      var t := Turn(points, n - 1);
      assert SignsUpTo(points, n) == SignsUpTo(points, n - 1) + (if !ApproxEquals(t, 0.0) then {t > 0.0} else {});
      assert SignificantTurn(points, n - 1, b) <==> !ApproxEquals(t, 0.0) && (t > 0.0) == b;
    }
  }

  /** `isConvexPolygon`: collects the signs of the significant turns and answers `size != 2`. */
  method IsConvexPolygon(poly: Polygon) returns (convex: bool)
    ensures convex == IsConvex(poly.points)
  {
    var points := poly.points;
    var len := |points|;
    if len < 4 {
      return true;
    }
    var signs: set<bool> := {};
    for i := 0 to len
      invariant signs == SignsUpTo(points, i)
    {
      var p1 := points[Mod(i - 1, len)];
      var p2 := points[i];
      var p3 := points[Mod(i + 1, len)];
      var v1 := VectorFromPoints(p1, p2);
      var v2 := VectorFromPoints(p2, p3);
      var sign := Multiply(v1, v2);
      if !ApproxEquals(sign, 0.0) {
        signs := signs + {sign > 0.0};
      }
    }
    BoolSetSize(signs);
    SignsUpToMembers(points, len, true);
    SignsUpToMembers(points, len, false);
    return |signs| != 2;
  }

  /** Polygons with fewer than four vertices are convex. */
  lemma SmallPolygonsConvex(points: seq<Point>)
    requires |points| < 4
    ensures IsConvex(points)
  {
  }

  function Reverse(points: seq<Point>): (r: seq<Point>)
    ensures |r| == |points|
    ensures forall i :: 0 <= i < |points| ==> r[i] == points[|points| - 1 - i]
  {
    seq(|points|, i requires 0 <= i < |points| => points[|points| - 1 - i])
  }

  /** Walking a corner backwards negates its turn. */
  lemma {:induction false} TurnOfReversedCorner(a: Point, b: Point, c: Point)
    ensures Multiply(VectorFromPoints(c, b), VectorFromPoints(b, a))
         == -Multiply(VectorFromPoints(a, b), VectorFromPoints(b, c))
  {
    assert Multiply(VectorFromPoints(c, b), VectorFromPoints(b, a))
        == (b.y - c.y) * (a.x - b.x) - (b.x - c.x) * (a.y - b.y);
    assert Multiply(VectorFromPoints(a, b), VectorFromPoints(b, c))
        == (b.y - a.y) * (c.x - b.x) - (b.x - a.x) * (c.y - b.y);
  }

  /** The turn at `i` of the reversed polygon is the negated turn at the mirrored vertex. */
  lemma {:induction false} TurnReversed(points: seq<Point>, i: nat)
    requires i < |points|
    ensures Turn(Reverse(points), i) == -Turn(points, |points| - 1 - i)
  {
    var n := |points|;
    var r := Reverse(points);
    var j := n - 1 - i;
    ModNeighbours(i, n);
    ModNeighbours(j, n);
    assert r[Mod(i - 1, n)] == points[Mod(j + 1, n)];
    assert r[Mod(i + 1, n)] == points[Mod(j - 1, n)];
    TurnOfReversedCorner(points[Mod(j - 1, n)], points[j], points[Mod(j + 1, n)]);
  }

  /** A vertex of the reversed polygon turns clearly one way exactly when its mirror turns the other way. */
  lemma SignificantTurnReversed(points: seq<Point>, i: nat, positive: bool)
    requires i < |points|
    ensures SignificantTurn(Reverse(points), i, positive) == SignificantTurn(points, |points| - 1 - i, !positive)
  {
    TurnReversed(points, i);
    var t := Turn(points, |points| - 1 - i);
    assert Turn(Reverse(points), i) == -t;
    assert Abs(-t - 0.0) == Abs(t - 0.0);
  }

  /** A clear turn one way becomes a clear turn the other way after reversal. */
  lemma HasTurnReversed(points: seq<Point>, positive: bool)
    ensures HasTurn(Reverse(points), positive) <==> HasTurn(points, !positive)
  {
    if HasTurn(Reverse(points), positive) {
      TurnFromReversed(points, positive);
    }
    if HasTurn(points, !positive) {
      TurnToReversed(points, positive);
    }
  }

  lemma TurnFromReversed(points: seq<Point>, positive: bool)
    requires HasTurn(Reverse(points), positive)
    ensures HasTurn(points, !positive)
  {
    var i :| 0 <= i < |points| && SignificantTurn(Reverse(points), i, positive);
    SignificantTurnReversed(points, i, positive);
    assert SignificantTurn(points, |points| - 1 - i, !positive);
  }

  lemma TurnToReversed(points: seq<Point>, positive: bool)
    requires HasTurn(points, !positive)
    ensures HasTurn(Reverse(points), positive)
  {
    var j :| 0 <= j < |points| && SignificantTurn(points, j, !positive);
    var i := |points| - 1 - j;
    SignificantTurnReversed(points, i, positive);
    assert SignificantTurn(Reverse(points), i, positive);
  }

  /** Listing the vertices in the opposite order does not change the answer. */
  lemma ConvexReversal(points: seq<Point>)
    ensures IsConvex(Reverse(points)) == IsConvex(points)
  {
    HasTurnReversed(points, true);
    HasTurnReversed(points, false);
  }

  function Square(): seq<Point>
  {
    [Point(0.0, 0.0), Point(10.0, 0.0), Point(10.0, 10.0), Point(0.0, 10.0)]
  }

  function SquareWithInwardVertex(): seq<Point>
  {
    [Point(0.0, 0.0), Point(10.0, 0.0), Point(10.0, 10.0), Point(5.0, 5.0), Point(0.0, 10.0)]
  }

  /** The unit-test square is convex in both orders: every turn is -100. */
  lemma SquareConvex()
    ensures IsConvex(Square()) && IsConvex(Reverse(Square()))
  {
    SquareTurnsRight();
    ConvexReversal(Square());
  }

  lemma SquareTurnsRight()
    ensures !HasTurn(Square(), true)
  {
    forall i | 0 <= i < |Square()|
      ensures !SignificantTurn(Square(), i, true)
    {
      SquareTurn(i);
    }
  }

  lemma SquareTurn(i: nat)
    requires i < 4
    ensures Turn(Square(), i) == -100.0
  {
    if i == 0 {
      SquareCorner0();
    } else if i == 1 {
      SquareCorner1();
    } else if i == 2 {
      SquareCorner2();
    } else {
      SquareCorner3();
    }
  }

  lemma SquareCorner0()
    ensures Turn(Square(), 0) == -100.0
  {
    TurnNeighbours(Square(), 0);
    assert Turn(Square(), 0) == Multiply(Vector(0.0, -10.0), Vector(10.0, 0.0));
  }

  lemma SquareCorner1()
    ensures Turn(Square(), 1) == -100.0
  {
    TurnNeighbours(Square(), 1);
    assert Turn(Square(), 1) == Multiply(Vector(10.0, 0.0), Vector(0.0, 10.0));
  }

  lemma SquareCorner2()
    ensures Turn(Square(), 2) == -100.0
  {
    TurnNeighbours(Square(), 2);
    assert Turn(Square(), 2) == Multiply(Vector(0.0, 10.0), Vector(-10.0, 0.0));
  }

  lemma SquareCorner3()
    ensures Turn(Square(), 3) == -100.0
  {
    TurnNeighbours(Square(), 3);
    assert Turn(Square(), 3) == Multiply(Vector(-10.0, 0.0), Vector(0.0, -10.0));
  }

  /** The turn at `i` from the explicit circular neighbours. */
  lemma TurnNeighbours(points: seq<Point>, i: nat)
    requires i < |points|
    ensures var n := |points|;
      var prev, next := if i == 0 then n - 1 else i - 1, if i == n - 1 then 0 else i + 1;
      Turn(points, i) == Multiply(VectorFromPoints(points[prev], points[i]), VectorFromPoints(points[i], points[next]))
  {
    ModNeighbours(i, |points|);
  }

  /** The square with a vertex pushed inwards is not convex, in either order. */
  lemma InwardVertexNotConvex()
    ensures !IsConvex(SquareWithInwardVertex())
    ensures !IsConvex(Reverse(SquareWithInwardVertex()))
  {
    var s := SquareWithInwardVertex();
    InwardVertexTurns();
    assert |s| == 5;
    assert SignificantTurn(s, 1, false) && SignificantTurn(s, 3, true);
    assert HasTurn(s, false) && HasTurn(s, true);
    ConvexReversal(s);
  }

  /** A right turn at the corner (10, 0), a left turn at the inward vertex (5, 5). */
  lemma InwardVertexTurns()
    ensures Turn(SquareWithInwardVertex(), 1) == -100.0
    ensures Turn(SquareWithInwardVertex(), 3) == 50.0
  {
    CornerTurn();
    InwardTurn();
  }

  lemma CornerTurn()
    ensures Turn(SquareWithInwardVertex(), 1) == -100.0
  {
    var s := SquareWithInwardVertex();
    TurnNeighbours(s, 1);
    assert Turn(s, 1) == Multiply(Vector(10.0, 0.0), Vector(0.0, 10.0));
  }

  lemma InwardTurn()
    ensures Turn(SquareWithInwardVertex(), 3) == 50.0
  {
    var s := SquareWithInwardVertex();
    TurnNeighbours(s, 3);
    assert Turn(s, 3) == Multiply(Vector(-5.0, -5.0), Vector(-5.0, 5.0));
  }
}
