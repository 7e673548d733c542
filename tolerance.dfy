/**
 * The shared numeric tolerance and the integer helpers used for circular
 * indexing into a polygon's vertices.
 */
module Tolerance {
  import opened GeometryModel

  /** The single tolerance every comparison shares. */
  const Eps: real := 0.000000001

  function Abs(v: real): (r: real)
    ensures r >= 0.0 && (r == v || r == -v)
  {
    if v < 0.0 then -v else v
  }

  /** `|a - b| <= e`. */
  predicate ApproxEquals(a: real, b: real): (r: bool)
    ensures r <==> b - Eps <= a <= b + Eps
  {
    Abs(a - b) <= Eps
  }

  lemma ApproxEqualsReflexiveSymmetric(a: real, b: real)
    ensures ApproxEquals(a, a)
    ensures ApproxEquals(a, b) == ApproxEquals(b, a)
  {
  }

  /**
   * Coordinate-wise approximate equality of two points: `p` lies in the
   * closed square of half-side `e` centred on `q`.
   */
  predicate PointsApproxEquals(p: Point, q: Point): (r: bool)
    ensures r <==> q.x - Eps <= p.x <= q.x + Eps && q.y - Eps <= p.y <= q.y + Eps
  {
    ApproxEquals(p.x, q.x) && ApproxEquals(p.y, q.y)
  }

  /** On round numbers the tolerance is exact equality. */
  lemma {:induction false} ApproxEqualsIntegral(a: real, b: real)
    requires IsIntegral(a) && IsIntegral(b)
    ensures ApproxEquals(a, b) <==> a == b
  {
    var d := a.Floor - b.Floor;
    assert a - b == d as real;
    if d != 0 {
      assert d >= 1 || d <= -1;
      assert Abs(a - b) >= 1.0;
    }
  }

  /** Between integer points the tolerance is exact equality. */
  lemma PointsApproxEqualsIntegral(p: Point, q: Point)
    requires IntegralPoint(p) && IntegralPoint(q)
    ensures PointsApproxEquals(p, q) <==> p == q
  {
    ApproxEqualsIntegral(p.x, q.x);
    ApproxEqualsIntegral(p.y, q.y);
  }

  function IntAbs(n: int): nat { if n < 0 then -n else n }

  /**
   * JavaScript's `%` on integers: the remainder of truncating division, which
   * takes the sign of the dividend and ignores the sign of the divisor
   * (Dafny's own `%` is Euclidean). It differs from `n` by a multiple of `m`.
   */
  function JsRem(n: int, m: int): (r: int)
    requires m != 0
    ensures IntAbs(r) < IntAbs(m)
    ensures n >= 0 ==> r >= 0
    ensures n <= 0 ==> r <= 0
    ensures (n - r) % IntAbs(m) == 0
  {
    var d := IntAbs(m);
    if n >= 0 then
      EuclideanUnique(n - n % d, d, n / d, 0);
      n % d
    else
      EuclideanUnique(n + (-n) % d, d, -((-n) / d), 0);
      -((-n) % d)
  }

  /**
   * `((n % m) + m) % m`: for a positive modulus a value in `[0, m)`, for a
   * negative one a value in `(m, 0]`. (`m == 0` gives NaN in the source.)
   */
  function Mod(n: int, m: int): (r: int)
    requires m != 0
    ensures m > 0 ==> 0 <= r < m
    ensures m < 0 ==> m < r <= 0
  {
    JsRem(JsRem(n, m) + m, m)
  }

  lemma {:induction false} MulAtLeast(d: int, m: int)
    requires d >= 1 && m > 0
    ensures d * m >= m
  {
    if d > 1 {
      MulAtLeast(d - 1, m);
      assert d * m == (d - 1) * m + m;
    }
  }

  /** Euclidean division is determined by its defining equation. */
  lemma {:induction false} EuclideanUnique(n: int, m: int, q: int, r: int)
    requires m > 0 && 0 <= r < m && n == q * m + r
    ensures n % m == r
  {
    var q0, r0 := n / m, n % m;
    assert n == q0 * m + r0;
    assert 0 <= r0 < m;
    var d := q - q0;
    assert d * m == q * m - q0 * m;
    assert d * m == r0 - r;
    if d > 0 {
      MulAtLeast(d, m);
    } else if d < 0 {
      MulAtLeast(-d, m);
    }
  }

  /** For a positive modulus the JavaScript formula is the mathematical remainder. */
  lemma {:induction false} ModIsEuclidean(n: int, m: int)
    requires m > 0
    ensures Mod(n, m) == n % m
  {
    if n >= 0 {
      var a := n % m;
      EuclideanUnique(a + m, m, 1, a);
    } else {
      var q0, b := (-n) / m, (-n) % m;
      assert -n == q0 * m + b;
      if b == 0 {
        EuclideanUnique(m, m, 1, 0);
        EuclideanUnique(n, m, -q0, 0);
      } else {
        EuclideanUnique(m - b, m, 0, m - b);
        EuclideanUnique(n, m, -q0 - 1, m - b);
      }
    }
  }

  /** The wrap-around step the convexity test relies on: the index before 0 is the last one. */
  lemma ModNeighbours(i: int, len: int)
    requires 0 <= i < len
    ensures Mod(i - 1, len) == if i == 0 then len - 1 else i - 1
    ensures Mod(i + 1, len) == if i == len - 1 then 0 else i + 1
  {
    ModIsEuclidean(i - 1, len);
    ModIsEuclidean(i + 1, len);
    if i == 0 {
      EuclideanUnique(-1, len, -1, len - 1);
    } else {
      EuclideanUnique(i - 1, len, 0, i - 1);
    }
    if i == len - 1 {
      EuclideanUnique(len, len, 1, 0);
    } else {
      EuclideanUnique(i + 1, len, 0, i + 1);
    }
  }
}
