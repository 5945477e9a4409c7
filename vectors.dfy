/**
 * The immutable three-dimensional vector of the layout engine
 * (src/springy3d.js, `Vector`). Coordinates are mathematical reals; the square
 * root is a parameter `sqrt` of which only `IsSqrt` is known.
 */
module Vectors {

  datatype Vector = Vector(x: real, y: real, z: real)

  const Zero: Vector := Vector(0.0, 0.0, 0.0)

  function Add(a: Vector, b: Vector): Vector
  {
    Vector(a.x + b.x, a.y + b.y, a.z + b.z)
  }

  function Subtract(a: Vector, b: Vector): Vector
  {
    Vector(a.x - b.x, a.y - b.y, a.z - b.z)
  }

  function Multiply(v: Vector, n: real): Vector
  {
    Vector(v.x * n, v.y * n, v.z * n)
  }

  /**
   * Component-wise division with the `(x / n) || 0` guard. The guard turns
   * 0/0 (NaN) into 0; a non-zero component over 0 would be an infinity, which
   * reals cannot hold, so that case is excluded.
   */
  function Divide(v: Vector, n: real): (r: Vector)
    requires n != 0.0 || v == Zero
    ensures n == 0.0 ==> r == Zero
    ensures n != 0.0 ==> Multiply(r, n) == v
  {
    if n == 0.0 then Zero else Vector(v.x / n, v.y / n, v.z / n)
  }

  function Dot(a: Vector, b: Vector): real
  {
    a.x * b.x + a.y * b.y + a.z * b.z
  }

  /** The squared length `x*x + y*y + z*z`. */
  function Magnitude2(v: Vector): real
  {
    Dot(v, v)
  }

  lemma PositiveProduct(a: real, b: real)
    requires 0.0 < a && 0.0 < b
    ensures 0.0 < a * b
  {
  }

  /** The product of a number with (a copy of) itself. */
  lemma SelfProduct(a: real, b: real)
    requires a == b
    ensures 0.0 <= a * b
    ensures a != 0.0 ==> 0.0 < a * b
  {
    if a > 0.0 {
      PositiveProduct(a, b);
    } else if a < 0.0 {
      PositiveProduct(-a, -b);
    }
  }

  lemma SelfDot(a: Vector, b: Vector)
    requires a == b
    ensures 0.0 <= Dot(a, b)
    ensures a != Zero ==> 0.0 < Dot(a, b)
  {
    SelfProduct(a.x, b.x);
    SelfProduct(a.y, b.y);
    SelfProduct(a.z, b.z);
    if a != Zero {
      var px, py, pz := a.x * b.x, a.y * b.y, a.z * b.z;
      assert 0.0 < px || 0.0 < py || 0.0 < pz;
      assert Dot(a, b) == px + py + pz;
    }
  }

  /** The squared length is never negative and is zero exactly for the zero vector. */
  lemma Magnitude2Sign(v: Vector)
    ensures 0.0 <= Magnitude2(v)
    ensures v != Zero <==> 0.0 < Magnitude2(v)
  {
    SelfDot(v, v);
  }

  /** What the model knows of `Math.sqrt`: a non-negative square root of every non-negative real. */
  ghost predicate IsSqrt(sqrt: real -> real)
  {
    forall x :: 0.0 <= x ==> 0.0 <= sqrt(x) && sqrt(x) * sqrt(x) == x
  }

  /** A non-negative root is positive exactly when its square is. */
  lemma RootSign(s: real, r: real, r': real)
    requires r == r' && 0.0 <= r && r * r' == s
    ensures 0.0 < s <==> 0.0 < r
  {
    SelfProduct(r, r');
  }

  /** The Euclidean length. */
  function Magnitude(v: Vector, sqrt: real -> real): (r: real)
    requires IsSqrt(sqrt)
    ensures 0.0 <= r && r * r == Magnitude2(v)
    ensures v != Zero <==> 0.0 < r
  {
    Magnitude2Sign(v);
    var s := Magnitude2(v);
    var r := sqrt(s);
    assert 0.0 <= r && r * r == s;
    RootSign(s, r, r);
    r
  }

  /** Scaling a vector by `c` scales its squared length by `c * c`. */
  lemma ScaledMagnitude(u: Vector, c: real)
    ensures Magnitude2(Multiply(u, c)) == c * c * Magnitude2(u)
  {
    var w := Multiply(u, c);
    assert w.x * w.x == c * c * (u.x * u.x);
    assert w.y * w.y == c * c * (u.y * u.y);
    assert w.z * w.z == c * c * (u.z * u.z);
  }

  lemma CancelFactor(m: real, m': real, d: real)
    requires m == m' && 0.0 < m && m * m' * d == m * m'
    ensures d == 1.0
  {
    PositiveProduct(m, m');
    var k := m * m';
    assert k * d == k;
    assert d == (k * d) / k;
  }

  /** The unit vector along `v`; the zero vector stays zero. */
  function Normalize(v: Vector, sqrt: real -> real): (r: Vector)
    requires IsSqrt(sqrt)
    ensures v == Zero ==> r == Zero
    ensures v != Zero ==> Magnitude2(r) == 1.0 && Multiply(r, Magnitude(v, sqrt)) == v
  {
    var m := Magnitude(v, sqrt);
    var r := Divide(v, m);
    if v == Zero then r
    else
      UnitAfterDivide(v, m, m, r);
      r
  }

  lemma UnitAfterDivide(v: Vector, m: real, m': real, r: Vector)
    requires m == m' && 0.0 < m && m * m' == Magnitude2(v)
    requires Multiply(r, m) == v
    ensures Magnitude2(r) == 1.0
  {
    ScaledDot(r, r, m, m');
    assert Multiply(r, m') == v;
    CancelFactor(m, m', Magnitude2(r));
  }

  lemma ScaledDot(a: Vector, b: Vector, c: real, c': real)
    ensures Dot(Multiply(a, c), Multiply(b, c')) == c * c' * Dot(a, b)
  {
    assert (a.x * c) * (b.x * c') == c * c' * (a.x * b.x);
    assert (a.y * c) * (b.y * c') == c * c' * (a.y * b.y);
    assert (a.z * c) * (b.z * c') == c * c' * (a.z * b.z);
  }

  /**
   * `v` itself when it is shorter than `limit`, otherwise `v` rescaled to
   * length `limit` (the zero vector stays zero).
   */
  function Limit(v: Vector, limit: real, sqrt: real -> real): (r: Vector)
    requires IsSqrt(sqrt)
    ensures Magnitude2(r) <= limit * limit
    ensures Magnitude2(v) < limit * limit ==> r == v
    ensures v != Zero && limit * limit <= Magnitude2(v) ==> Magnitude2(r) == limit * limit
    ensures v != Zero && limit * limit <= Magnitude2(v) ==> Multiply(r, Magnitude(v, sqrt)) == Multiply(v, limit)
    ensures v == Zero ==> r == Zero
  {
    if limit * limit > Magnitude2(v) then v
    else
      var u := Normalize(v, sqrt);
      RescaledLength(v, u, limit);
      if v != Zero then
        var m := Magnitude(v, sqrt);
        ScaleSwap(u, limit, m);
        Multiply(u, limit)
      else
        Multiply(u, limit)
  }

  /** Two scalings commute. */
  lemma ScaleSwap(u: Vector, a: real, b: real)
    ensures Multiply(Multiply(u, a), b) == Multiply(Multiply(u, b), a)
  {
    assert (u.x * a) * b == (u.x * b) * a;
    assert (u.y * a) * b == (u.y * b) * a;
    assert (u.z * a) * b == (u.z * b) * a;
  }

  /**
   * A non-zero vector at least `limit > 0` long is limited to a positive
   * multiple of itself, no longer than itself: it keeps its direction.
   */
  lemma LimitScales(v: Vector, limit: real, sqrt: real -> real)
    requires IsSqrt(sqrt) && v != Zero && 0.0 < limit && limit * limit <= Magnitude2(v)
    ensures var c := limit / Magnitude(v, sqrt);
      0.0 < c <= 1.0 && Limit(v, limit, sqrt) == Multiply(v, c)
  {
    var m := Magnitude(v, sqrt);
    var r := Limit(v, limit, sqrt);
    assert r == Multiply(v, limit / m) by {
      Unscale(r, v, m, limit);
    }
    NotLonger(limit, m, limit * limit, Magnitude2(v));
  }

  /** From `r * m == v * limit` with `m > 0`, `r` is `v` times `limit / m`. */
  lemma Unscale(r: Vector, v: Vector, m: real, limit: real)
    requires 0.0 < m && Multiply(r, m) == Multiply(v, limit)
    ensures r == Multiply(v, limit / m)
  {
    assert r.x == (r.x * m) / m;
    assert r.y == (r.y * m) / m;
    assert r.z == (r.z * m) / m;
  }

  /** Of two positive lengths, the one with the smaller square is the smaller: `limit / m` is in (0, 1]. */
  lemma NotLonger(limit: real, m: real, l2: real, m2: real)
    requires 0.0 < limit && 0.0 < m && l2 == limit * limit && m2 == m * m && l2 <= m2
    ensures 0.0 < limit / m <= 1.0
  {
    if m < limit {
      PositiveProduct(limit - m, limit + m);
    }
  }

  lemma RescaledLength(v: Vector, u: Vector, c: real)
    requires v == Zero ==> u == Zero
    requires v != Zero ==> Magnitude2(u) == 1.0
    ensures Magnitude2(Multiply(u, c)) <= c * c
    ensures v != Zero ==> Magnitude2(Multiply(u, c)) == c * c
  {
    ScaledMagnitude(u, c);
    SelfProduct(c, c);
    if v == Zero {
      assert Multiply(u, c) == Zero;
    }
  }

  /** Subtraction undoes addition. */
  lemma AddSubtractInverse(a: Vector, b: Vector)
    ensures Subtract(Add(a, b), b) == a
    ensures Add(Subtract(a, b), b) == a
  {
  }

  /** Sums of vectors can be regrouped. */
  lemma AddAssociative(a: Vector, b: Vector, c: Vector)
    ensures Add(Add(a, b), c) == Add(a, Add(b, c))
  {
  }

  /** Division undoes multiplication by a non-zero factor, and the reverse. */
  lemma MultiplyDivideInverse(v: Vector, n: real)
    requires n != 0.0
    ensures Divide(Multiply(v, n), n) == v
    ensures Multiply(Divide(v, n), n) == v
  {
    var w := Multiply(v, n);
    assert w.x / n == v.x && w.y / n == v.y && w.z / n == v.z;
  }

  /** Swapping the operands of a subtraction negates every component and keeps the length. */
  lemma SubtractAntisymmetric(a: Vector, b: Vector)
    ensures Subtract(b, a) == Multiply(Subtract(a, b), -1.0)
    ensures Magnitude2(Subtract(b, a)) == Magnitude2(Subtract(a, b))
  {
    ScaledMagnitude(Subtract(a, b), -1.0);
  }
}
