/**
 * The force laws of `Layout.ForceDirected` (src/springy3d.js) on single Points
 * and on the position and mass columns the Coulomb loop works on.
 */
module Physics {
  import opened Vectors
  import opened Graphs
  import opened Caches

  /** `Point.applyForce`: the acceleration grows by the force over the mass. */
  function ApplyForce(pt: Point, force: Vector): (r: Point)
    ensures r.p == pt.p && r.v == pt.v && r.m == pt.m
    ensures Multiply(Subtract(r.a, pt.a), pt.m) == force
  {
    var q := pt.(a := Add(pt.a, Divide(force, pt.m)));
    assert Subtract(q.a, pt.a) == Divide(force, pt.m);
    q
  }

  // ----- Coulomb's law -----

  /** The Manhattan length the Coulomb loop divides by. */
  function Manhattan(d: Vector): (r: real)
    ensures 0.0 <= r
    ensures d != Zero ==> 0.0 < r
  {
    (if d.x > 0.0 then d.x else -d.x) + (if d.y > 0.0 then d.y else -d.y) + (if d.z > 0.0 then d.z else -d.z)
  }

  /**
   * The repulsion factor between two points `d` apart. The source divides by
   * the Manhattan length without softening, so coinciding points are excluded.
   */
  function Factor(rep: real, d: Vector): (f: real)
    requires d != Zero
    ensures 0.0 < rep ==> 0.0 < f
  {
    Magnitude2Sign(d);
    var den := Denominator(Manhattan(d), Magnitude2(d));
    PositiveProduct(1.73205081 * Manhattan(d), Magnitude2(d) + 0.1);
    SignOfQuotient(4.0 * rep, den);
    4.0 * rep / den
  }

  /** What the factor divides by: `1.73205081 * manhattan * (distance² + 0.1)`. */
  function Denominator(manhattan: real, distance2: real): real
  {
    1.73205081 * manhattan * (distance2 + 0.1)
  }

  lemma SignOfQuotient(x: real, y: real)
    requires 0.0 < y
    ensures 0.0 < x ==> 0.0 < x / y
  {
  }

  /** The factor depends on the separation only up to its sign. */
  lemma FactorSymmetric(rep: real, a: Vector, b: Vector)
    requires a != b
    ensures Subtract(a, b) != Zero && Subtract(b, a) != Zero
    ensures Factor(rep, Subtract(b, a)) == Factor(rep, Subtract(a, b))
  {
    SubtractAntisymmetric(a, b);
    FactorCongruent(rep, Subtract(b, a), Subtract(a, b));
  }

  lemma FactorCongruent(rep: real, d: Vector, e: Vector)
    requires d != Zero && e != Zero
    requires Manhattan(d) == Manhattan(e) && Magnitude2(d) == Magnitude2(e)
    ensures Factor(rep, d) == Factor(rep, e)
  {
    assert Denominator(Manhattan(d), Magnitude2(d)) == Denominator(Manhattan(e), Magnitude2(e));
  }

  /** No two of the positions coincide. */
  ghost predicate Separated(pos: seq<Vector>)
  {
    forall i, j :: 0 <= i < |pos| && 0 <= j < |pos| && i != j ==> pos[i] != pos[j]
  }

  /** The repulsive force on point `k` from point `l`. */
  function PairForce(pos: seq<Vector>, rep: real, k: nat, l: nat): Vector
    requires k < |pos| && l < |pos| && k != l && Separated(pos)
  {
    var d := Subtract(pos[k], pos[l]);
    Multiply(d, Factor(rep, d))
  }

  /** Newton's third law for the pair force. */
  lemma PairForceAntisymmetric(pos: seq<Vector>, rep: real, k: nat, l: nat)
    requires k < |pos| && l < |pos| && k != l && Separated(pos)
    ensures PairForce(pos, rep, l, k) == Multiply(PairForce(pos, rep, k, l), -1.0)
  {
    var d := Subtract(pos[k], pos[l]);
    FactorSymmetric(rep, pos[k], pos[l]);
    NegatedScale(d, Subtract(pos[l], pos[k]), Factor(rep, d));
  }

  lemma NegatedScale(d: Vector, e: Vector, f: real)
    requires e == Multiply(d, -1.0)
    ensures Multiply(e, f) == Multiply(Multiply(d, f), -1.0)
  {
  }

  /**
   * The two updates the inner loop of `applyCoulombsLaw` makes for a pair: with
   * `d` the separation of `i` from `j`, the force on `i` is `d * factor` and
   * the force on `j` is `d * -factor`.
   */
  lemma PairForces(pos: seq<Vector>, rep: real, i: nat, j: nat)
    requires i < |pos| && j < |pos| && i != j && Separated(pos)
    ensures var d := Subtract(pos[i], pos[j]);
      && d != Zero
      && PairForce(pos, rep, i, j) == Multiply(d, Factor(rep, d))
      && PairForce(pos, rep, j, i) == Multiply(d, -Factor(rep, d))
  {
    var d := Subtract(pos[i], pos[j]);
    var f := Factor(rep, d);
    PairForceAntisymmetric(pos, rep, i, j);
    assert (d.x * f) * -1.0 == d.x * -f && (d.y * f) * -1.0 == d.y * -f && (d.z * f) * -1.0 == d.z * -f;
  }

  /** With positive repulsion the pair force pushes `k` away from `l`. */
  lemma PairForceRepels(pos: seq<Vector>, rep: real, k: nat, l: nat)
    requires k < |pos| && l < |pos| && k != l && Separated(pos) && 0.0 < rep
    ensures 0.0 < Dot(PairForce(pos, rep, k, l), Subtract(pos[k], pos[l]))
  {
    var d := Subtract(pos[k], pos[l]);
    ScaledRepels(d, Factor(rep, d));
  }

  lemma ScaledRepels(d: Vector, f: real)
    requires d != Zero && 0.0 < f
    ensures 0.0 < Dot(Multiply(d, f), d)
  {
    ScaledDot(d, d, f, 1.0);
    assert Multiply(d, 1.0) == d;
    SelfDot(d, d);
    PositiveProduct(f, Dot(d, d));
  }

  /** The matrix of pair forces: row `k`, column `l` is the force on `k` from `l`. */
  function Forces(pos: seq<Vector>, rep: real): (F: seq<seq<Vector>>)
    requires Separated(pos)
    ensures Square(F, |pos|)
  {
    seq(|pos|, k requires 0 <= k < |pos| =>
      seq(|pos|, l requires 0 <= l < |pos| => if k == l then Zero else PairForce(pos, rep, k, l)))
  }

  ghost predicate Square(F: seq<seq<Vector>>, n: nat)
  {
    |F| == n && forall k :: 0 <= k < n ==> |F[k]| == n
  }

  ghost predicate Antisymmetric(F: seq<seq<Vector>>)
  {
    && Square(F, |F|)
    && forall k, l :: 0 <= k < |F| && 0 <= l < |F| ==> F[l][k] == Multiply(F[k][l], -1.0)
  }

  lemma ForcesAntisymmetric(pos: seq<Vector>, rep: real)
    requires Separated(pos)
    ensures Antisymmetric(Forces(pos, rep))
  {
    var F := Forces(pos, rep);
    forall k, l | 0 <= k < |F| && 0 <= l < |F| ensures F[l][k] == Multiply(F[k][l], -1.0) {
      if k != l {
        PairForceAntisymmetric(pos, rep, k, l);
      }
    }
  }

  /** The acceleration the Coulomb loop adds to point `k` from the points before `n`. */
  function AccelRow(F: seq<seq<Vector>>, ms: seq<Mass>, k: nat, n: nat): Vector
    requires Square(F, |ms|) && k < |ms| && n <= |ms|
  {
    if n == 0 then Zero
    else
      var r := AccelRow(F, ms, k, n - 1);
      if n - 1 == k then r else Add(r, Divide(F[k][n - 1], ms[k]))
  }

  /** The force on point `k` from the points before `n`. */
  function ForceRow(F: seq<seq<Vector>>, k: nat, n: nat): Vector
    requires Square(F, |F|) && k < |F| && n <= |F|
  {
    if n == 0 then Zero
    else
      var r := ForceRow(F, k, n - 1);
      if n - 1 == k then r else Add(r, F[k][n - 1])
  }

  /** The acceleration added to every point, in order. */
  function Accels(pos: seq<Vector>, ms: seq<Mass>, rep: real): (r: seq<Vector>)
    requires |pos| == |ms| && Separated(pos)
    ensures |r| == |pos|
  {
    var F := Forces(pos, rep);
    seq(|pos|, k requires 0 <= k < |pos| => AccelRow(F, ms, k, |pos|))
  }

  /** The sum of `Multiply(acc[k], ms[k])` over `k < n`: the total force the accelerations stand for. */
  function MomentumSum(acc: seq<Vector>, ms: seq<Mass>, n: nat): Vector
    requires n <= |acc| && n <= |ms|
  {
    if n == 0 then Zero else Add(MomentumSum(acc, ms, n - 1), Multiply(acc[n - 1], ms[n - 1]))
  }

  lemma {:induction false} AccelTimesMass(F: seq<seq<Vector>>, ms: seq<Mass>, k: nat, n: nat)
    requires Square(F, |ms|) && k < |ms| && n <= |ms|
    ensures Multiply(AccelRow(F, ms, k, n), ms[k]) == ForceRow(F, k, n)
  {
    if n > 0 {
      AccelTimesMass(F, ms, k, n - 1);
      if n - 1 != k {
        var c := Divide(F[k][n - 1], ms[k]);
        assert Multiply(c, ms[k]) == F[k][n - 1];
        DistributeMultiply(AccelRow(F, ms, k, n - 1), c, ms[k]);
      }
    }
  }

  lemma DistributeMultiply(a: Vector, b: Vector, m: real)
    ensures Multiply(Add(a, b), m) == Add(Multiply(a, m), Multiply(b, m))
  {
    assert (a.x + b.x) * m == a.x * m + b.x * m;
    assert (a.y + b.y) * m == a.y * m + b.y * m;
    assert (a.z + b.z) * m == a.z * m + b.z * m;
  }

  /** The sum over `k < m` of the force on `k` from the points before `n`. */
  function ForceTotal(F: seq<seq<Vector>>, m: nat, n: nat): Vector
    requires Square(F, |F|) && m <= |F| && n <= |F|
  {
    if m == 0 then Zero else Add(ForceTotal(F, m - 1, n), ForceRow(F, m - 1, n))
  }

  /** The sum over `k < m` of the force on `k` from `n`. */
  function Column(F: seq<seq<Vector>>, m: nat, n: nat): Vector
    requires Square(F, |F|) && m <= n < |F|
  {
    if m == 0 then Zero else Add(Column(F, m - 1, n), F[m - 1][n])
  }

  lemma {:induction false} ForceTotalStep(F: seq<seq<Vector>>, m: nat, n: nat)
    requires Square(F, |F|) && m <= n < |F|
    ensures ForceTotal(F, m, n + 1) == Add(ForceTotal(F, m, n), Column(F, m, n))
  {
    if m > 0 {
      ForceTotalStep(F, m - 1, n);
    }
  }

  lemma {:induction false} ColumnCancelsRow(F: seq<seq<Vector>>, m: nat, n: nat)
    requires Antisymmetric(F) && m <= n < |F|
    ensures Add(Column(F, m, n), ForceRow(F, n, m)) == Zero
  {
    if m > 0 {
      ColumnCancelsRow(F, m - 1, n);
      assert F[n][m - 1] == Multiply(F[m - 1][n], -1.0);
    }
  }

  /** Antisymmetric pair forces cancel: the forces on all points add up to zero. */
  lemma {:induction false} ForcesCancel(F: seq<seq<Vector>>, n: nat)
    requires Antisymmetric(F) && n <= |F|
    ensures ForceTotal(F, n, n) == Zero
  {
    if n > 0 {
      var k := n - 1;
      ForcesCancel(F, k);
      ForceTotalStep(F, k, k);
      ColumnCancelsRow(F, k, k);
      assert ForceRow(F, k, n) == ForceRow(F, k, k);
    }
  }

  lemma {:induction false} MomentumIsForce(F: seq<seq<Vector>>, acc: seq<Vector>, ms: seq<Mass>, m: nat)
    requires Square(F, |ms|) && |acc| == |ms| && m <= |ms|
    requires forall k :: 0 <= k < |ms| ==> acc[k] == AccelRow(F, ms, k, |ms|)
    ensures MomentumSum(acc, ms, m) == ForceTotal(F, m, |ms|)
  {
    if m > 0 {
      MomentumIsForce(F, acc, ms, m - 1);
      AccelTimesMass(F, ms, m - 1, |ms|);
    }
  }

  /**
   * The accelerations the Coulomb loop adds, weighted by mass, sum to zero:
   * the repulsion exchanges momentum between points and creates none.
   */
  lemma CoulombMomentum(pos: seq<Vector>, ms: seq<Mass>, rep: real)
    requires |pos| == |ms| && Separated(pos)
    ensures MomentumSum(Accels(pos, ms, rep), ms, |pos|) == Zero
  {
    var F := Forces(pos, rep);
    ForcesAntisymmetric(pos, rep);
    MomentumIsForce(F, Accels(pos, ms, rep), ms, |pos|);
    ForcesCancel(F, |pos|);
  }

  // ----- Hooke's law -----

  /** `f1` applied to the Point at `h1`, then `f2` to the Point at `h2`. */
  function Push(ps: seq<Point>, h1: nat, h2: nat, f1: Vector, f2: Vector): (r: seq<Point>)
    requires h1 < |ps| && h2 < |ps|
    ensures |r| == |ps|
    ensures forall h :: 0 <= h < |ps| ==> r[h].p == ps[h].p && r[h].v == ps[h].v && r[h].m == ps[h].m
    ensures forall h :: 0 <= h < |ps| && h != h1 && h != h2 ==> r[h] == ps[h]
    ensures h1 != h2 ==>
      && Multiply(Subtract(r[h1].a, ps[h1].a), ps[h1].m) == f1
      && Multiply(Subtract(r[h2].a, ps[h2].a), ps[h2].m) == f2
  {
    var ps1 := ps[h1 := ApplyForce(ps[h1], f1)];
    ps1[h2 := ApplyForce(ps1[h2], f2)]
  }

  /** The unit vector from `point1` to `point2` (zero when they coincide). */
  function SpringDirection(ps: seq<Point>, sp: Spring, sqrt: real -> real): Vector
    requires IsSqrt(sqrt) && sp.point1 < |ps| && sp.point2 < |ps|
  {
    Normalize(Subtract(ps[sp.point2].p, ps[sp.point1].p), sqrt)
  }

  /** Half the spring force: stiffness times the stretch below rest length, over 2. */
  function SpringMultiplier(ps: seq<Point>, sp: Spring, sqrt: real -> real): real
    requires IsSqrt(sqrt) && sp.point1 < |ps| && sp.point2 < |ps|
  {
    var d := Subtract(ps[sp.point2].p, ps[sp.point1].p);
    var displacement := sp.length - Magnitude(d, sqrt);
    sp.k * displacement * 0.5
  }

  /**
   * One spring of `applyHookesLaw`: each end is pulled towards (or pushed from)
   * the other by `k * (length - distance) / 2`, first `point1`, then `point2`.
   */
  function ApplySpring(ps: seq<Point>, sp: Spring, sqrt: real -> real): (r: seq<Point>)
    requires IsSqrt(sqrt) && sp.point1 < |ps| && sp.point2 < |ps|
    ensures |r| == |ps|
  {
    var direction := SpringDirection(ps, sp, sqrt);
    var multiplier := SpringMultiplier(ps, sp, sqrt);
    Push(ps, sp.point1, sp.point2, Multiply(direction, -multiplier), Multiply(direction, multiplier))
  }

  /** Opposite forces on the two ends change only their accelerations, oppositely when the ends are distinct. */
  lemma PushSpec(ps: seq<Point>, r: seq<Point>, h1: nat, h2: nat, direction: Vector, multiplier: real)
    requires h1 < |ps| && h2 < |ps|
    requires r == Push(ps, h1, h2, Multiply(direction, -multiplier), Multiply(direction, multiplier))
    ensures forall h :: 0 <= h < |ps| ==> r[h].p == ps[h].p && r[h].v == ps[h].v && r[h].m == ps[h].m
    ensures forall h :: 0 <= h < |ps| && h != h1 && h != h2 ==> r[h] == ps[h]
    ensures h1 != h2 ==>
      Add(Multiply(Subtract(r[h1].a, ps[h1].a), ps[h1].m), Multiply(Subtract(r[h2].a, ps[h2].a), ps[h2].m)) == Zero
  {
  }

  /**
   * A spring changes only the accelerations of its two ends; when the ends are
   * distinct their mass-weighted changes are opposite (Newton's third law).
   */
  lemma ApplySpringSpec(ps: seq<Point>, sp: Spring, sqrt: real -> real)
    requires IsSqrt(sqrt) && sp.point1 < |ps| && sp.point2 < |ps|
    ensures var r := ApplySpring(ps, sp, sqrt);
      && (forall h :: 0 <= h < |ps| ==> r[h].p == ps[h].p && r[h].v == ps[h].v && r[h].m == ps[h].m)
      && (forall h :: 0 <= h < |ps| && h != sp.point1 && h != sp.point2 ==> r[h] == ps[h])
      && (sp.point1 != sp.point2 ==>
            Add(Multiply(Subtract(r[sp.point1].a, ps[sp.point1].a), ps[sp.point1].m),
                Multiply(Subtract(r[sp.point2].a, ps[sp.point2].a), ps[sp.point2].m)) == Zero)
  {
    PushSpec(ps, ApplySpring(ps, sp, sqrt), sp.point1, sp.point2, SpringDirection(ps, sp, sqrt), SpringMultiplier(ps, sp, sqrt));
  }

  /** An inert spring (stiffness 0, as merged springs are) changes nothing. */
  lemma InertSpring(ps: seq<Point>, sp: Spring, sqrt: real -> real)
    requires IsSqrt(sqrt) && sp.point1 < |ps| && sp.point2 < |ps| && sp.k == 0.0
    ensures ApplySpring(ps, sp, sqrt) == ps
  {
    var direction := SpringDirection(ps, sp, sqrt);
    var multiplier := SpringMultiplier(ps, sp, sqrt);
    assert multiplier == 0.0;
    ZeroPush(ps, sp.point1, sp.point2, Multiply(direction, -multiplier), Multiply(direction, multiplier));
  }

  /** The force that turned the Point at `h` of `ps` into that of `r`: the change of acceleration times the mass. */
  function ForceOn(ps: seq<Point>, r: seq<Point>, h: nat): Vector
    requires h < |ps| && h < |r|
  {
    Multiply(Subtract(r[h].a, ps[h].a), ps[h].m)
  }

  /**
   * Hooke's law for forces `f1` on one end and `f2` on the other of a spring
   * of stiffness `k` and rest length `length` whose ends are `d` apart, at
   * distance `distance`: `f2` is opposite to `f1`; `f1` projects onto `d` as
   * `k * (distance - length) / 2 * distance` and, for apart ends, has length
   * `k * |distance - length| / 2`; so a stiff spring stretched beyond its rest
   * length pulls the first end towards the second, and a compressed one pushes
   * it away.
   */
  ghost predicate HookeForces(d: Vector, distance: real, k: real, length: real, f1: Vector, f2: Vector)
  {
    var half := Tension(k, length, distance);
    && f2 == Multiply(f1, -1.0)
    && Dot(f1, d) == half * distance
    && (d != Zero ==> Magnitude2(f1) == half * half)
    && (0.0 < k && d != Zero && length < distance ==> 0.0 < Dot(f1, d))
    && (0.0 < k && d != Zero && distance < length ==> Dot(f1, d) < 0.0)
  }

  /** Half the force of a spring of stiffness `k` and rest length `length` stretched to `distance`. */
  function Tension(k: real, length: real, distance: real): real
  {
    0.5 * k * (distance - length)
  }

  /** One spring on distinct ends obeys Hooke's law, with `d` the separation from `point1` to `point2`. */
  lemma SpringForce(ps: seq<Point>, sp: Spring, sqrt: real -> real)
    requires IsSqrt(sqrt) && sp.point1 < |ps| && sp.point2 < |ps| && sp.point1 != sp.point2
    ensures var r := ApplySpring(ps, sp, sqrt);
      var d := Subtract(ps[sp.point2].p, ps[sp.point1].p);
      HookeForces(d, Magnitude(d, sqrt), sp.k, sp.length, ForceOn(ps, r, sp.point1), ForceOn(ps, r, sp.point2))
  {
    SpringPush(ps, sp, sqrt);
    var r := ApplySpring(ps, sp, sqrt);
    var d := Subtract(ps[sp.point2].p, ps[sp.point1].p);
    var distance := Magnitude(d, sqrt);
    var direction := SpringDirection(ps, sp, sqrt);
    var multiplier := SpringMultiplier(ps, sp, sqrt);
    var half := Tension(sp.k, sp.length, distance);
    assert -multiplier == half && multiplier == -half by {
      assert multiplier == sp.k * (sp.length - distance) * 0.5;
      HalfStretch(sp.k, sp.length, distance);
    }
    var f1, f2 := ForceOn(ps, r, sp.point1), ForceOn(ps, r, sp.point2);
    assert f1 == Multiply(direction, half) && f2 == Multiply(direction, -half);
    AlongDirection(d, direction, distance, half);
    NegatedFactor(direction, half);
    HookeForcesOf(d, distance, sp.k, sp.length, f1, f2);
  }

  /** The forces one spring applies to its distinct ends, as the source computes them. */
  lemma SpringPush(ps: seq<Point>, sp: Spring, sqrt: real -> real)
    requires IsSqrt(sqrt) && sp.point1 < |ps| && sp.point2 < |ps| && sp.point1 != sp.point2
    ensures var r := ApplySpring(ps, sp, sqrt);
      && ForceOn(ps, r, sp.point1) == Multiply(SpringDirection(ps, sp, sqrt), -SpringMultiplier(ps, sp, sqrt))
      && ForceOn(ps, r, sp.point2) == Multiply(SpringDirection(ps, sp, sqrt), SpringMultiplier(ps, sp, sqrt))
  {
  }

  lemma HalfStretch(k: real, length: real, distance: real)
    ensures -(k * (length - distance) * 0.5) == Tension(k, length, distance)
    ensures k * (length - distance) * 0.5 == -Tension(k, length, distance)
  {
  }

  /** The sign clauses of `HookeForces` follow from the projection. */
  lemma HookeForcesOf(d: Vector, distance: real, k: real, length: real, f1: Vector, f2: Vector)
    requires 0.0 <= distance && (d != Zero <==> 0.0 < distance)
    requires f2 == Multiply(f1, -1.0)
    requires Dot(f1, d) == Tension(k, length, distance) * distance
    requires d != Zero ==> Magnitude2(f1) == Tension(k, length, distance) * Tension(k, length, distance)
    ensures HookeForces(d, distance, k, length, f1, f2)
  {
    if 0.0 < k && d != Zero {
      HookeSign(k, length, distance);
    }
  }

  lemma NegatedFactor(v: Vector, c: real)
    ensures Multiply(v, -c) == Multiply(Multiply(v, c), -1.0)
  {
  }

  /** The sign of `k * (distance - length) / 2 * distance` for a stiff spring with apart ends. */
  lemma HookeSign(k: real, length: real, distance: real)
    requires 0.0 < k && 0.0 < distance
    ensures length < distance ==> 0.0 < Tension(k, length, distance) * distance
    ensures distance < length ==> Tension(k, length, distance) * distance < 0.0
  {
    if length < distance {
      PositiveProduct(0.5 * k, distance - length);
      PositiveProduct(0.5 * k * (distance - length), distance);
    }
    if distance < length {
      PositiveProduct(0.5 * k, length - distance);
      PositiveProduct(0.5 * k * (length - distance), distance);
    }
  }

  /**
   * A force `c` times the unit vector along `d` projects onto `d` as
   * `c * |d|` and, for a non-zero `d`, has squared length `c * c`.
   */
  lemma AlongDirection(d: Vector, direction: Vector, distance: real, c: real)
    requires d == Zero ==> direction == Zero && distance == 0.0
    requires d != Zero ==> Magnitude2(direction) == 1.0 && Multiply(direction, distance) == d
    ensures Dot(Multiply(direction, c), d) == c * distance
    ensures d != Zero ==> Magnitude2(Multiply(direction, c)) == c * c
  {
    if d != Zero {
      ScaledDot(direction, direction, c, distance);
      ScaledMagnitude(direction, c);
    }
  }

  lemma ZeroPush(ps: seq<Point>, h1: nat, h2: nat, f1: Vector, f2: Vector)
    requires h1 < |ps| && h2 < |ps| && f1 == Zero && f2 == Zero
    ensures Push(ps, h1, h2, f1, f2) == ps
  {
    assert Divide(Zero, ps[h1].m) == Zero;
    assert Divide(Zero, ps[h2].m) == Zero;
  }

  // ----- The per-node steps -----

  /** The three `eachNode` passes of a tick. */
  datatype NodeStep =
    | Centre(repulsion: real)
    | Velocity(timestep: real, damping: real)
    | Position(timestep: real)

  /** The speed limit of `updateVelocity`. */
  const MaxSpeed: real := 100.0

  /** The `updateVelocity` overspeed test: it looks at `x` and `y` only. */
  predicate Overspeed(dv: Vector)
  {
    dv.x * dv.x + dv.y * dv.y > MaxSpeed * MaxSpeed
  }

  /**
   * What a pass does to one Point: `attractToCentre` pulls it to the origin
   * with force `-repulsion / 50` times its position; `updateVelocity` pins a
   * point heavier than 2, and otherwise inflates its mass by 1.1 when the
   * speed gain is too large, adds the limited gain to the velocity, damps it
   * and clears the acceleration; `updatePosition` moves the point by its
   * velocity.
   */
  function Step(step: NodeStep, pt: Point, sqrt: real -> real): Point
    requires IsSqrt(sqrt)
  {
    match step
    case Centre(rep) => ApplyForce(pt, Multiply(pt.p, -rep / 50.0))
    case Velocity(dt, damping) =>
      if pt.m > 2.0 then pt.(v := Zero, a := Zero)
      else
        var dv := Multiply(pt.a, dt);
        var m: Mass := if Overspeed(dv) then pt.m * 1.1 else pt.m;
        var dv' := Limit(dv, MaxSpeed, sqrt);
        pt.(m := m, v := Multiply(Add(pt.v, dv'), damping), a := Zero)
    case Position(dt) => pt.(p := Add(pt.p, Multiply(pt.v, dt)))
  }

  /**
   * The velocity `updateVelocity` gives an unpinned Point `pt`: with `dv` the
   * gain `a * timestep`, a gain shorter than the limit is added as it is, and
   * a longer one is first shortened, in its own direction, to exactly the
   * limit; the sum is then damped.
   */
  ghost predicate Damped(pt: Point, v: Vector, dt: real, damping: real)
  {
    var dv := Multiply(pt.a, dt);
    && (Magnitude2(dv) < MaxSpeed * MaxSpeed ==> v == Multiply(Add(pt.v, dv), damping))
    && (MaxSpeed * MaxSpeed <= Magnitude2(dv) ==>
          exists c :: 0.0 < c <= 1.0 && Magnitude2(Multiply(dv, c)) == MaxSpeed * MaxSpeed
            && v == Multiply(Add(pt.v, Multiply(dv, c)), damping))
  }

  /**
   * `updateVelocity` clears the acceleration; a point heavier than 2 is
   * stopped and keeps its mass; any other point gets the `Damped` velocity
   * (so it gains at most speed 100 before damping), and its mass is
   * multiplied by 1.1 exactly when the gain overshot and is kept otherwise,
   * so mass never decreases.
   */
  lemma VelocityStepSpec(pt: Point, dt: real, damping: real, sqrt: real -> real)
    requires IsSqrt(sqrt)
    ensures var r := Step(Velocity(dt, damping), pt, sqrt);
      && r.a == Zero && r.p == pt.p && pt.m <= r.m
      && (pt.m > 2.0 ==> r.v == Zero && r.m == pt.m)
      && (pt.m <= 2.0 ==>
            var dv := Multiply(pt.a, dt);
            && (r.m == pt.m * 1.1 <==> Overspeed(dv))
            && (r.m == pt.m <==> !Overspeed(dv))
            && (exists gain :: Magnitude2(gain) <= MaxSpeed * MaxSpeed && r.v == Multiply(Add(pt.v, gain), damping))
            && Damped(pt, r.v, dt, damping))
  {
    if pt.m <= 2.0 {
      var dv := Multiply(pt.a, dt);
      var gain := Limit(dv, MaxSpeed, sqrt);
      assert Magnitude2(gain) <= MaxSpeed * MaxSpeed;
      if MaxSpeed * MaxSpeed <= Magnitude2(dv) {
        Magnitude2Sign(dv);
        LimitScales(dv, MaxSpeed, sqrt);
        var c := MaxSpeed / Magnitude(dv, sqrt);
        assert Multiply(dv, c) == gain;
      }
    }
  }

  /** `attractToCentre` and `updatePosition` change one field each. */
  lemma CentreAndPositionSteps(pt: Point, rep: real, dt: real, sqrt: real -> real)
    requires IsSqrt(sqrt)
    ensures var r := Step(Centre(rep), pt, sqrt);
      r.p == pt.p && r.v == pt.v && r.m == pt.m && Multiply(Subtract(r.a, pt.a), pt.m) == Multiply(pt.p, -rep / 50.0)
    ensures var r := Step(Position(dt), pt, sqrt);
      r.v == pt.v && r.a == pt.a && r.m == pt.m && Subtract(r.p, pt.p) == Multiply(pt.v, dt)
  {
  }

  /** A pinned point, once its velocity step has stopped it, does not move. */
  lemma PinnedStays(pt: Point, dt: real, damping: real, sqrt: real -> real)
    requires IsSqrt(sqrt) && pt.m > 2.0
    ensures Step(Position(dt), Step(Velocity(dt, damping), pt, sqrt), sqrt).p == pt.p
  {
    assert Multiply(Zero, dt) == Zero;
  }

  /**
   * The last three passes of a tick on one Point `pt` whose position, velocity
   * and mass are those of `pt0` (the first two passes change accelerations
   * only): the acceleration ends cleared, the mass does not decrease, and a
   * Point heavier than 2 ends where it started, at rest, with its mass.
   */
  lemma PointTick(pt0: Point, pt: Point, rep: real, dt: real, damping: real, sqrt: real -> real)
    requires IsSqrt(sqrt) && pt.p == pt0.p && pt.v == pt0.v && pt.m == pt0.m
    ensures var r := Step(Position(dt), Step(Velocity(dt, damping), Step(Centre(rep), pt, sqrt), sqrt), sqrt);
      && r.a == Zero && pt0.m <= r.m
      && (pt0.m > 2.0 ==> r.p == pt0.p && r.v == Zero && r.m == pt0.m)
  {
    var c := Step(Centre(rep), pt, sqrt);
    CentreAndPositionSteps(pt, rep, dt, sqrt);
    VelocityStepSpec(c, dt, damping, sqrt);
    var w := Step(Velocity(dt, damping), c, sqrt);
    CentreAndPositionSteps(w, rep, dt, sqrt);
    if pt0.m > 2.0 {
      PinnedStays(c, dt, damping, sqrt);
    }
  }

  // ----- Energy -----

  /** The kinetic energy term `0.5 * m * speed * speed` of one point. */
  function Kinetic(pt: Point, sqrt: real -> real): real
    requires IsSqrt(sqrt)
  {
    var speed := Magnitude(pt.v, sqrt);
    0.5 * pt.m * speed * speed
  }

  /** The kinetic energy is half the mass times the squared speed, so never negative, and zero exactly at rest. */
  lemma KineticSpec(pt: Point, sqrt: real -> real)
    requires IsSqrt(sqrt)
    ensures Kinetic(pt, sqrt) == 0.5 * pt.m * Magnitude2(pt.v)
    ensures 0.0 <= Kinetic(pt, sqrt)
    ensures Kinetic(pt, sqrt) == 0.0 <==> pt.v == Zero
  {
    KineticValue(pt, sqrt);
    Magnitude2Sign(pt.v);
    ScaledSign(Kinetic(pt, sqrt), 0.5 * pt.m, Magnitude2(pt.v), pt.v == Zero);
  }

  /** The sign half of `KineticSpec`, for sums of kinetic energies. */
  lemma KineticSign(pt: Point, sqrt: real -> real)
    requires IsSqrt(sqrt)
    ensures 0.0 <= Kinetic(pt, sqrt)
    ensures Kinetic(pt, sqrt) == 0.0 <==> pt.v == Zero
  {
    KineticSpec(pt, sqrt);
  }

  lemma KineticValue(pt: Point, sqrt: real -> real)
    requires IsSqrt(sqrt)
    ensures Kinetic(pt, sqrt) == 0.5 * pt.m * Magnitude2(pt.v)
  {
    var speed := Magnitude(pt.v, sqrt);
    HalfMassSquare(0.5 * pt.m, speed, speed, Magnitude2(pt.v));
  }

  lemma ScaledSign(e: real, c: real, q: real, zero: bool)
    requires e == c * q && 0.0 < c && 0.0 <= q && (zero <==> q == 0.0)
    ensures 0.0 <= e
    ensures e == 0.0 <==> zero
  {
    if q > 0.0 {
      PositiveProduct(c, q);
    }
  }

  lemma HalfMassSquare(c: real, s: real, s': real, q: real)
    requires 0.0 < c && s == s' && s * s' == q && 0.0 <= q
    ensures c * s * s' == c * q
    ensures 0.0 <= c * q
    ensures c * q == 0.0 <==> q == 0.0
  {
    assert c * s * s' == c * (s * s');
    if q > 0.0 {
      PositiveProduct(c, q);
    }
  }
}
