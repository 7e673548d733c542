/**
 * Displacements in the plane and the vector algebra the geometry services
 * use without trigonometry: the two cross products, scaling and translation.
 */
module Vectors {
  import opened GeometryModel

  /** A displacement; structurally a point, but a distinct concept. */
  datatype Vector = Vector(x: real, y: real)

  /** The displacement from `origin` to `p`. */
  function VectorFromPoints(origin: Point, p: Point): (v: Vector)
  {
    Vector(p.x - origin.x, p.y - origin.y)
  }

  /**
   * The cross product in the source's own sign convention,
   * `this.y * other.x - this.x * other.y`: the negation of the textbook one.
   */
  function Multiply(v: Vector, w: Vector): (c: real)
    ensures c == -MultiplyLeft(v, w)
  {
    v.y * w.x - v.x * w.y
  }

  /** The textbook cross product `this.x * other.y - this.y * other.x`. */
  function MultiplyLeft(v: Vector, w: Vector): (c: real)
  {
    v.x * w.y - v.y * w.x
  }

  /** Scaling by a number: the result is parallel to `v`, and scaling by 1 keeps `v`. */
  function MultiplyToNumber(v: Vector, k: real): (r: Vector)
    ensures MultiplyLeft(v, r) == 0.0
    ensures k == 1.0 ==> r == v
  {
    Vector(v.x * k, v.y * k)
  }

  /** Translation of a point by the vector. */
  function AppendToPoint(v: Vector, p: Point): (q: Point)
  {
    Point(p.x + v.x, p.y + v.y)
  }

  /** Moving a point by the displacement to another reaches the other, and back. */
  lemma AppendVectorFromPoints(origin: Point, p: Point, v: Vector)
    ensures AppendToPoint(VectorFromPoints(origin, p), origin) == p
    ensures VectorFromPoints(origin, AppendToPoint(v, origin)) == v
  {
  }

  /** `multiply` is antisymmetric. */
  lemma MultiplyAntisymmetric(v: Vector, w: Vector)
    ensures Multiply(v, w) == -Multiply(w, v)
    ensures MultiplyLeft(v, w) == -MultiplyLeft(w, v)
  {
  }

  /** Any vector is parallel to itself: the cross product vanishes. */
  lemma MultiplySelfZero(v: Vector)
    ensures Multiply(v, v) == 0.0
    ensures MultiplyLeft(v, v) == 0.0
  {
  }

  /**
   * Scaling multiplies the cross product by the factor, a scaled vector is
   * parallel to the original, and scaling by a non-zero factor is undone by
   * its reciprocal.
   */
  lemma {:induction false} MultiplyScales(v: Vector, w: Vector, k: real)
    ensures Multiply(MultiplyToNumber(v, k), w) == k * Multiply(v, w)
    ensures Multiply(v, MultiplyToNumber(w, k)) == k * Multiply(v, w)
    ensures Multiply(MultiplyToNumber(v, k), v) == 0.0
    ensures k != 0.0 ==> MultiplyToNumber(MultiplyToNumber(v, k), 1.0 / k) == v
  {
    assert (v.y * k) * w.x - (v.x * k) * w.y == k * (v.y * w.x - v.x * w.y);
    assert v.y * (w.x * k) - v.x * (w.y * k) == k * (v.y * w.x - v.x * w.y);
    assert (v.y * k) * v.x - (v.x * k) * v.y == k * (v.y * v.x - v.x * v.y);
    if k != 0.0 {
      assert (v.x * k) * (1.0 / k) == v.x * (k * (1.0 / k));
      assert (v.y * k) * (1.0 / k) == v.y * (k * (1.0 / k));
    }
  }

  /**
   * The orientation of three points is unchanged when all of them are moved by
   * the same vector.
   */
  lemma MultiplyTranslationInvariant(a: Point, b: Point, c: Point, t: Vector)
    ensures var a', b', c' := AppendToPoint(t, a), AppendToPoint(t, b), AppendToPoint(t, c);
      Multiply(VectorFromPoints(a', b'), VectorFromPoints(a', c'))
        == Multiply(VectorFromPoints(a, b), VectorFromPoints(a, c))
  {
  }

  /**
   * The orientation of three points is preserved by rotating them and flipped
   * by swapping two of them.
   */
  lemma {:induction false} OrientationSymmetries(a: Point, b: Point, c: Point)
    ensures Multiply(VectorFromPoints(b, c), VectorFromPoints(b, a))
         == Multiply(VectorFromPoints(a, b), VectorFromPoints(a, c))
    ensures Multiply(VectorFromPoints(b, a), VectorFromPoints(b, c))
         == -Multiply(VectorFromPoints(a, b), VectorFromPoints(a, c))
  {
    var o := Multiply(VectorFromPoints(a, b), VectorFromPoints(a, c));
    assert o == (b.y - a.y) * (c.x - a.x) - (b.x - a.x) * (c.y - a.y);
    assert Multiply(VectorFromPoints(b, c), VectorFromPoints(b, a))
        == (c.y - b.y) * (a.x - b.x) - (c.x - b.x) * (a.y - b.y);
  }
}
