# Geometry library of geometry-tasks, modelled in Dafny

The repository is a small teaching application for computational geometry.
Behind its drawing pages sits a geometry library with these parts:

- a point/polygon data model;
- 2-D vectors and their cross products;
- a bounded segment-intersection test;
- a ray-casting point-in-polygon test;
- a convexity test;
- two convex-hull algorithms: brute force ("triangle") and gift wrapping (Jarvis march).

This project models that library with exact real coordinates and the
library's tolerance `e = 1e-9`, and proves properties of the model.

The modules follow the source files:

| module | file | models |
|---|---|---|
| `Wrappers` | `wrappers.dfy` | the `Option` type for results that may be absent |
| `GeometryModel` | `model.dfy` | `src/model/geometry.ts`: the `Point`/`Polygon` union, `isPoint`, `getPoints`, `setPoint`, `roundPoint` |
| `Vectors` | `vectors.dfy` | the `Vector` class and `vectorFromPoints` |
| `Tolerance` | `tolerance.dfy` | `approxEquals`, `pointsApproxEquals` and the circular-index `mod` |
| `Segments` | `segments.dfy` | `intersection`, `sortPointsVertically`, `isPointNotBelowLine`, `isPointNotAboveLine` |
| `PointInPolygon` | `point_in_polygon.dfy` | `isPointInPolygon` |
| `Convexity` | `convexity.dfy` | `isConvexPolygon` |
| `ConvexHull` | `convex_hull.dfy` | `getCenter`, the centroid re-centring of the convex generator, and the elimination phase of `getConvexSimple` |
| `Jarvis` | `jarvis.dfy` | the early return and start-vertex scan of `getConvexJarvis` |

Pure functions of the source are Dafny functions.

The source's loops are methods with loop invariants. Each method is proved
equal to a reference function:

- `isPointInPolygon` against `InPolygon`, the crossing-count parity;
- `isConvexPolygon` against `IsConvex`, "not both turn directions present";
- the elimination loops of `getConvexSimple` against `Survivors`;
- the `getConvexJarvis` start scan against `StartAmong`.

Lemmas state what the library promises of those functions.

Modelling choices:

- Coordinates are `real`, so no floating-point rounding happens.
- `Math.round(x)` is `Floor(x + 1/2)`.
- JavaScript's `%` is the truncating remainder `JsRem`. `mod(n, m)` is built from it. For `m > 0` it is proved equal to the Euclidean remainder.
- The `Point`/`Polygon` union is a tagged datatype. `isPoint` tests the tag.
- `setPoint` takes a natural index. It follows JavaScript's `slice` clamping: an index past the end appends.
- `getConvexSimple` keeps its state in a `Set<Point>` of the input objects. The model keeps the input points that are not eliminated, in input order. The decision depends only on the point's coordinates, so duplicate points get the same decision.
- The `continue p` that leaves the three inner loops becomes an early `return` from the search methods. `SearchThird`, `SearchSecond` and `InsideSomeTriangle` are the innermost, middle and outer search loops.
- `getCenter` of an empty list divides by zero in the source and returns NaN. The model returns `None`.
- Directions are the screen's: `y` grows downward, so a point "above" another has the smaller `y`. This is the sense of `isPointNotBelowLine` in `test/geometry.test.ts:34-88`. Elsewhere this text compares `y` values directly.

Behaviour of the code that its names or tests may suggest otherwise:

- `sortPointsVertically` (`src/services/geometry.ts:66-72`) does not always return the same pair for both argument orders. Its tests (`test/geometry.test.ts:13-32`) use only `y` values that are equal or 10 apart. For such separated `y` values both orders agree (`Segments.SortPointsVerticallySymmetric`), and integer coordinates always are separated (`Segments.IntegralSeparated`). Within the tolerance the order matters for some pairs and not for others: when `q`'s `y` exceeds `p`'s by at most `e`, the two orders differ exactly when `p.x >= q.x` (`Segments.SortPointsVerticallyNearTie`).
- The Jarvis start scan (`src/services/geometry.ts:355-360`) picks the point of smallest `y`, then smallest `x`, only for well-separated `y` values (`Jarvis.StartAmongMinimal`). Otherwise the scan can move to a point whose `y` is up to `e` larger at each step (`Jarvis.StartNearTie`).
- The brute-force rule (`src/services/geometry.ts:257-266`) skips only triangles that have a vertex approximately equal to the tested point. It does not require the three vertices to be distinct. Its containment test is the ray-casting parity, not "strictly inside".
- The only early return for small inputs is the one in `getConvexJarvis` (`src/services/geometry.ts:351-352`). `getConvexSimple` has none.
- `intersection` divides by `k` before checking `k == 0` (`src/services/geometry.ts:49-56`). The result is still `null` for parallel segments, because the combined condition tests `k == 0`. The model checks `k == 0` first.

## Model

| member | source | states |
|---|---|---|
| GeometryModel.IsPoint | src/model/geometry.ts:39 | an object is a point exactly when its point list is that single point |
| GeometryModel.GetPoints | src/model/geometry.ts:41-44 | a point yields the one-element list of itself; a polygon yields its vertex list |
| GeometryModel.SetPoint | src/model/geometry.ts:46-57 | a point is replaced by the new point; a polygon stays a polygon |
| GeometryModel.SetPointReplaces | src/model/geometry.ts:54-56 | for an index inside the polygon, the length is kept, the index holds the new point, and every other vertex is unchanged |
| GeometryModel.SetPointAppends | src/model/geometry.ts:54-56 | for an index at or past the end, the new point is appended |
| GeometryModel.SetPointKeepsKind | src/model/geometry.ts:46-57 | setting a point never changes whether the object is a point |
| GeometryModel.Round | src/model/geometry.ts:59-62 | rounding gives the integer within half a unit, halves rounding up |
| GeometryModel.RoundIntegral | src/model/geometry.ts:59-62 | an integer rounds to itself |
| GeometryModel.RoundPoint | src/model/geometry.ts:59-62 | the result has integer coordinates, each within half a unit of the input |
| GeometryModel.RoundPointIdempotent | src/model/geometry.ts:59-62 | rounding leaves integer points alone, so rounding twice is rounding once |
| Vectors.VectorFromPoints | src/services/geometry.ts:45-46 | the displacement from `origin` to `p`; it has no contract of its own, and `Vectors.AppendVectorFromPoints` makes it the inverse of `appendToPoint` |
| Vectors.Multiply | src/services/geometry.ts:11-17 | `multiply` is the negation of `multiplyLeft` |
| Vectors.MultiplyLeft | src/services/geometry.ts:15-17 | the textbook cross product; it has no contract of its own, and `Vectors.Multiply`, `Vectors.MultiplyAntisymmetric` and `Vectors.MultiplySelfZero` state its relation to `multiply`, its antisymmetry and its zero on parallel vectors |
| Vectors.MultiplyToNumber | src/services/geometry.ts:19-21 | the scaled vector is parallel to the original, and scaling by 1 keeps the vector |
| Vectors.AppendToPoint | src/services/geometry.ts:31-33 | translation of a point; it has no contract of its own, and `Vectors.AppendVectorFromPoints` makes it the inverse of `vectorFromPoints` |
| Vectors.AppendVectorFromPoints | src/services/geometry.ts:31-33 | appending the vector from `o` to `p` onto `o` gives `p`, and the vector from `o` to `o + v` is `v` |
| Vectors.MultiplyAntisymmetric | src/services/geometry.ts:11-17 | both cross products change sign when their arguments are swapped |
| Vectors.MultiplySelfZero | src/services/geometry.ts:11-17 | a vector's cross product with itself is zero |
| Vectors.MultiplyScales | src/services/geometry.ts:11-21 | the cross product is linear in each argument under `multiplyToNumber`; a scaled copy is parallel; scaling by `k` then by `1/k` restores the vector |
| Vectors.MultiplyTranslationInvariant | src/services/geometry.ts:31-33 | the turn of three points is unchanged when all three are moved by the same vector |
| Vectors.OrientationSymmetries | src/services/geometry.ts:45-46 | the turn of three points keeps its value under rotation of the points and changes sign when two are swapped |
| Tolerance.Abs | src/services/geometry.ts:64 | the absolute value is non-negative and equals the value or its negation |
| Tolerance.ApproxEquals | src/services/geometry.ts:64 | two numbers are approximately equal exactly when the first lies in the closed interval of radius `e` around the second |
| Tolerance.ApproxEqualsReflexiveSymmetric | src/services/geometry.ts:64 | tolerance equality is reflexive and symmetric |
| Tolerance.ApproxEqualsIntegral | src/services/geometry.ts:64 | on integers, tolerance equality is exact equality |
| Tolerance.PointsApproxEquals | src/services/geometry.ts:74-75 | two points are approximately equal exactly when the first lies in the closed square of half-side `e` centred on the second |
| Tolerance.PointsApproxEqualsIntegral | src/services/geometry.ts:74-75 | on integer points, tolerance equality is exact equality |
| Tolerance.JsRem | src/services/geometry.ts:227 | JavaScript `%`: smaller in size than the divisor, with the sign of the dividend, and differing from the dividend by a multiple of the divisor |
| Tolerance.Mod | src/services/geometry.ts:226-228 | `mod` lies in `[0, m)` for positive `m` and in `(m, 0]` for negative `m` |
| Tolerance.ModIsEuclidean | src/services/geometry.ts:226-228 | for positive `m`, `mod` is the mathematical remainder |
| Tolerance.ModNeighbours | src/services/geometry.ts:235-237 | for an index of a polygon, `mod(i - 1)` and `mod(i + 1)` are the previous and next vertex, wrapping at both ends |
| Segments.Intersection | src/services/geometry.ts:48-62 | parallel or collinear segments (zero determinant) never intersect |
| Segments.LerpEqualSystem | src/services/geometry.ts:49-52 | two segment parameters name the same point exactly when they solve the linear system the determinant belongs to |
| Segments.IntersectionSound | src/services/geometry.ts:48-62 | a reported point lies on both segments, at parameters in `[0, 1]` along each, with a non-zero determinant |
| Segments.IntersectionComplete | src/services/geometry.ts:48-62 | non-parallel segments that share a point are reported, with that point |
| Segments.IntersectionCharacterized | src/services/geometry.ts:48-62 | a point is reported exactly when the determinant is non-zero and the segments share a point |
| Segments.CollinearOverlapNotReported | src/services/geometry.ts:54-56 | parallel segments that share a point are met as point sets yet reported as not intersecting |
| Segments.CollinearOverlapExample | src/services/geometry.ts:54-56 | such a pair exists: `(0, 0)-(2, 0)` and `(1, 0)-(3, 0)` are parallel and both pass through `(1, 0)` |
| Segments.SortPointsVertically | src/services/geometry.ts:66-72 | the result is the two arguments in some order, the first `y` exceeding the second by at most `e`, and for separated `y` values lexicographically ordered by `y` then `x` |
| Segments.SortPointsVerticallySymmetric | test/geometry.test.ts:13-32 | for `y` values equal or more than `e` apart, both argument orders give the same pair |
| Segments.IntegralSeparated | src/services/geometry.ts:66-72 | integer points always have separated `y` values |
| Segments.SortPointsVerticallyNearTie | src/services/geometry.ts:66-72 | when the second point's `y` exceeds the first's by at most `e`, the two argument orders give different pairs exactly when the first point's `x` is not smaller |
| Segments.IsPointNotBelowLine | src/services/geometry.ts:136-147 | a point is not below the line `p1 -> p2` exactly when it is not above the reversed line `p2 -> p1` |
| Segments.IsPointNotAboveLine | src/services/geometry.ts:149-161 | `p` is not above the line `p1 -> p2` exactly when `p2` is not below the line `p1 -> p` |
| Segments.SideOfLine | src/services/geometry.ts:136-161 | a point is on both sides exactly when it is on the line, on exactly one side otherwise, and always on at least one |
| Segments.EndpointsOnLine | src/services/geometry.ts:136-161 | both defining points lie on the line |
| Segments.SideOfLineExamples | test/geometry.test.ts:34-88 | the eight side-of-line cases of the unit tests |
| PointInPolygon.MaxX | src/services/geometry.ts:83 | `maxBy(..).x` is at least every vertex's `x` and is some vertex's `x` |
| PointInPolygon.FarPoint | src/services/geometry.ts:81-85 | the ray's end, 100 right of the largest vertex `x` at the tested point's height; it has no contract of its own, and `PointInPolygon.CrossingOnRayAndEdge` places every counted crossing between the point and it |
| PointInPolygon.Edge | src/services/geometry.ts:87-90 | edge `i` sorted by `sortPointsVertically`; it has no contract of its own, and `PointInPolygon.EdgeEndpoints` states which vertices it joins and in what order |
| PointInPolygon.EdgeCounted | src/services/geometry.ts:91-93 | the ray meets edge `i` at a point not approximately equal to its second endpoint; it has no contract of its own, and `PointInPolygon.CrossingOnRayAndEdge` states where such a crossing lies |
| PointInPolygon.CrossingCount | src/services/geometry.ts:86-95 | the number of counted edges among the first `n` is at most `n` |
| PointInPolygon.InPolygon | src/services/geometry.ts:77-97 | the reference answer: an empty polygon contains nothing, otherwise the point is inside when an odd number of edges is counted; `PointInPolygon.IsPointInPolygon` is proved to compute it |
| PointInPolygon.IsPointInPolygon | src/services/geometry.ts:77-97 | the method answers the parity of crossed edges, and answers false for an empty polygon |
| PointInPolygon.LerpBetween | src/services/geometry.ts:58-61 | a point at parameter `t` in `[0, 1]` lies between the endpoints in both coordinates |
| PointInPolygon.EdgeEndpoints | src/services/geometry.ts:87-90 | edge `i` joins vertex `i` and the next vertex (vertex 0 after the last), in one order or the other, the first `y` exceeding the second by at most `e` |
| PointInPolygon.CrossingOnRayAndEdge | src/services/geometry.ts:91-93 | a reported crossing lies at the tested point's height, between the point and the far point, and within the edge's `x` and `y` ranges |
| PointInPolygon.NoCountedEdgeNoCrossing | src/services/geometry.ts:86-95 | with no counted edge the count is zero |
| PointInPolygon.OutsideWhenNoEdgeCounted | src/services/geometry.ts:96 | with no counted edge the point is outside |
| PointInPolygon.EmptyPolygonContainsNothing | src/services/geometry.ts:80 | an empty polygon contains no point |
| PointInPolygon.OutsideAboveAllVertices | src/services/geometry.ts:77-97 | a point with smaller `y` than every vertex is outside |
| PointInPolygon.OutsideBelowAllVertices | src/services/geometry.ts:77-97 | a point with larger `y` than every vertex is outside |
| PointInPolygon.OutsideRightOfAllVertices | src/services/geometry.ts:77-97 | a point right of every vertex is outside |
| PointInPolygon.SquareContainsCentre | src/services/geometry.ts:77-97 | the 10 by 10 square contains `(5, 5)` |
| PointInPolygon.SquareExcludesFarPoint | src/services/geometry.ts:77-97 | the 10 by 10 square does not contain `(15, 15)` |
| Convexity.Turn | src/services/geometry.ts:235-240 | the cross product of the incoming and outgoing edge at vertex `i`; it has no contract of its own, and `Convexity.TurnNeighbours` and `Convexity.TurnReversed` state its neighbours and its behaviour under reversal |
| Convexity.SignsUpTo | src/services/geometry.ts:233-241 | the `signs` set after the first `n` vertices; it has no contract of its own, and `Convexity.SignsUpToMembers` states its members |
| Convexity.BoolSetSize | src/services/geometry.ts:243 | a set of booleans has size two exactly when it holds both values |
| Convexity.SignsUpToMembers | src/services/geometry.ts:234-242 | a sign is recorded exactly when some vertex seen so far turns clearly in that direction |
| Convexity.IsConvex | src/services/geometry.ts:230-244 | the reference answer: fewer than four vertices, or not both turn directions clearly present; `Convexity.IsConvexPolygon` is proved to compute it |
| Convexity.IsConvexPolygon | src/services/geometry.ts:230-244 | the method answers whether the polygon is convex: fewer than four vertices, or not both turn directions present |
| Convexity.SmallPolygonsConvex | src/services/geometry.ts:232 | polygons of at most three vertices are convex |
| Convexity.Reverse | test/geometry.test.ts:108-125 | the reversed vertex list has the same length and the mirrored vertices |
| Convexity.TurnOfReversedCorner | src/services/geometry.ts:238-240 | walking a corner backwards negates its turn |
| Convexity.TurnReversed | src/services/geometry.ts:235-240 | the turn at `i` of the reversed polygon is the negated turn at the mirrored vertex |
| Convexity.SignificantTurnReversed | src/services/geometry.ts:241 | a clear turn one way at a vertex of the reversed polygon is a clear turn the other way at its mirror |
| Convexity.HasTurnReversed | src/services/geometry.ts:234-242 | the reversed polygon turns clearly one way exactly when the original turns clearly the other way |
| Convexity.ConvexReversal | test/geometry.test.ts:108-125 | reversing the vertex order does not change convexity |
| Convexity.TurnNeighbours | src/services/geometry.ts:235-240 | the turn at a vertex uses its circular neighbours |
| Convexity.SquareConvex | test/geometry.test.ts:108-115 | the 10 by 10 square is convex in both vertex orders |
| Convexity.InwardVertexNotConvex | test/geometry.test.ts:117-125 | the square with one vertex pushed inwards is not convex in either order |
| ConvexHull.SumX | src/services/geometry.ts:164 | lodash `sumBy(points, p => p.x)`; it has no contract of its own, and `ConvexHull.SumTranslate` states how it changes under translation |
| ConvexHull.SumY | src/services/geometry.ts:165 | lodash `sumBy(points, p => p.y)`; it has no contract of its own, and `ConvexHull.SumTranslate` states how it changes under translation |
| ConvexHull.GetCenter | src/services/geometry.ts:163-168 | the centroid exists exactly when there is at least one point |
| ConvexHull.CenterIsMean | src/services/geometry.ts:163-168 | the displacements of the points from their centroid sum to zero in each coordinate, which makes the centroid the mean |
| ConvexHull.Translate | src/services/geometry.ts:215-219 | moving a list by a vector keeps its length and moves each point |
| ConvexHull.SumTranslate | src/services/geometry.ts:164-165 | moving `n` points by a vector adds `n` times the vector to the coordinate sums |
| ConvexHull.CenterTranslates | src/services/geometry.ts:163-168 | the centroid of the moved points is the moved centroid |
| ConvexHull.RecenteredCentroid | src/services/geometry.ts:214-219 | after subtracting the centroid and adding `center`, the centroid is `center` |
| ConvexHull.Hit | src/services/geometry.ts:257-263 | the triangle at indices `i1`, `i2`, `i3` has no vertex approximately equal to the point and contains it by the ray test; `ConvexHull.TriangleHit` is proved to decide it |
| ConvexHull.TriangleHit | src/services/geometry.ts:257-266 | one innermost step: a triangle with a vertex approximately equal to the point is skipped, otherwise the ray test decides |
| ConvexHull.Eliminated | src/services/geometry.ts:257-266 | the reference elimination rule: some triangle of input points, none approximately equal to the point, contains it by the ray test; `ConvexHull.InsideSomeTriangle` is proved to decide it |
| ConvexHull.SearchThird | src/services/geometry.ts:256-268 | a reported third vertex gives a containing triangle; no report means no third vertex does |
| ConvexHull.SearchSecond | src/services/geometry.ts:255-269 | a reported pair gives a containing triangle; no report means no triangle with that first vertex contains the point |
| ConvexHull.InsideSomeTriangle | src/services/geometry.ts:254-270 | the point is reported exactly when some triangle of input points away from it contains it |
| ConvexHull.Survivors | src/services/geometry.ts:252-271 | the reference result: the input points, in input order, that are not eliminated; `ConvexHull.EliminateInteriorPoints` is proved to compute it |
| ConvexHull.SurvivorsAmong | src/services/geometry.ts:252-271 | the candidates, in order, that are not eliminated, never more than the candidates; `ConvexHull.SurvivorsAmongMembers` states its members |
| ConvexHull.EliminateInteriorPoints | src/services/geometry.ts:252-271 | the kept points are the input points, in input order, that no such triangle contains |
| ConvexHull.SurvivorsAmongMembers | src/services/geometry.ts:252-271 | a point survives among candidates exactly when it is a candidate and no triangle contains it |
| ConvexHull.SurvivorsMembers | src/services/geometry.ts:252-271 | a point is kept exactly when it is an input point that no triangle contains |
| ConvexHull.SmallestYSurvives | src/services/geometry.ts:252-271 | a point with strictly the smallest `y` among the points away from it is kept |
| ConvexHull.LargestYSurvives | src/services/geometry.ts:252-271 | a point with strictly the largest `y` is kept |
| ConvexHull.LargestXSurvives | src/services/geometry.ts:252-271 | a point with strictly the largest `x` is kept |
| ConvexHull.SquareWithDotElimination | test/geometry.test.ts:127-141 | on the unit-test input `(5, 5)` is eliminated and `(0, 0)`, `(11, 9)`, `(1, 10)` are kept |
| ConvexHull.DotInsideTriangle | test/geometry.test.ts:127-141 | the triangle `(0, 0)`, `(11, 9)`, `(1, 10)` contains `(5, 5)` by the ray test |
| Jarvis.IntegralWellSeparated | src/services/geometry.ts:355-361 | points with integer coordinates have pairwise separated `y` values |
| Jarvis.Precedes | src/services/geometry.ts:356-360 | the scan's replacement test: a smaller `y`, or a `y` within `e` and a smaller `x`; `Jarvis.StartAmongMinimal` relates it to the `LexLess` order |
| Jarvis.StartAmong | src/services/geometry.ts:354-361 | the start the scan has settled on is always an input point |
| Jarvis.StartAmongMinimal | src/services/geometry.ts:354-361 | for well-separated input, no point scanned so far precedes the start in the order of smaller `y`, ties to smaller `x` |
| Jarvis.StartAmongMinimalAll | src/services/geometry.ts:354-361 | for well-separated input, the start has the smallest `y` of all input points and the smallest `x` among those |
| Jarvis.GetConvexJarvisStart | src/services/geometry.ts:351-361 | fewer than four points are returned unchanged; otherwise the start is the scan's input point, of smallest `y` then smallest `x` for well-separated input |
| Jarvis.StartNearTie | src/services/geometry.ts:355-360 | with `y` values within `e`, the scan can settle on a point whose `y` is not the smallest |
| Jarvis.SquareWithDotStart | test/geometry.test.ts:143-148 | on the unit-test input the march starts from `(0, 0)` |

## Left out

- `generatePolygon` and `generateConvexPolygon` draw random numbers and use `sin`/`cos`. Only the centroid re-centring step (`ConvexHull.RecenteredCentroid`) is modelled.
- `Vector.rotate`, `Vector.normalize` and `Vector.length` use `sin`, `cos`, `sqrt` and division by the length. They need real trigonometry, which the model does not have.
- `polarToCartesian` and `radians` are left out for the same reason.
- `degBetweenVectors` uses `atan2`. The angular sort at the end of `getConvexSimple` depends on it, so that sort is left out too. The model stops at the list of kept points.
- `cosAngle` uses `acos`. The gift-wrapping loop of `getConvexJarvis` depends on it, so that loop is left out, including its 500-step abort. Only the early return and the start scan are modelled.
- The Graham scan and `polarAngleDeg` appear in the tests but not in the source files, so they are not part of this model.
- The `getConvex` dispatch is a two-way switch and is not modelled separately.
- The `console.log` calls and the commented-out drafts have no effect on results.
- IEEE-754 doubles are left out: rounding, overflow, NaN and infinities are not modelled. Coordinates are exact reals.
- The UI pages, components and hooks only call into the library.
- `PointInPolygon.CrossingCount`: its contract bounds the count only. The parity answer is carried by `InPolygon` and the lemmas about it.
- `ConvexHull.GetCenter`: its own contract states only when a centroid exists. Its value is fixed by `ConvexHull.CenterIsMean`.
- `ConvexHull.SquareWithDotElimination`: it does not establish that `(10, 1)` is kept. That point is not extreme along either axis, so the axis lemmas do not apply. The model has no general convexity argument for the ray test.
- `Tolerance.Mod`: `m == 0` is excluded. The source gives NaN there, and every caller passes a polygon length of at least four.
