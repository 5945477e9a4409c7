/**
 * The passes of `Layout.ForceDirected` (src/springy3d.js) as functions of the
 * cache state: each pass runs over `graph.nodes` or `graph.edges`, fetching
 * (and on first use creating) the Point or Spring of every element.
 */
module Simulation {
  import opened Wrappers
  import opened Seqs
  import opened Vectors
  import opened Graphs
  import opened Caches
  import opened Physics

  /** No id occurs twice among the nodes, as in a valid graph. */
  ghost predicate DistinctIds(nodes: seq<Node>)
  {
    forall i, j :: 0 <= i < j < |nodes| ==> nodes[i].id != nodes[j].id
  }

  /** Every index in `hs` names a Point of `ps`. */
  ghost predicate InRange(ps: seq<Point>, hs: seq<nat>)
  {
    forall i :: 0 <= i < |hs| ==> hs[i] < |ps|
  }

  /** The Points of `ps` other than position, velocity and mass are unchanged ... */
  ghost predicate OnlyAccelerations(ps: seq<Point>, ps': seq<Point>)
  {
    && |ps| <= |ps'|
    && forall h :: 0 <= h < |ps| ==> ps'[h].p == ps[h].p && ps'[h].v == ps[h].v && ps'[h].m == ps[h].m
  }

  lemma HandlesInRange(s: State, nodes: seq<Node>)
    requires Ok(s) && HasPoints(s, nodes)
    ensures InRange(s.points, Handles(s, nodes))
  {
    forall i | 0 <= i < |nodes| ensures Handles(s, nodes)[i] < |s.points| {
      assert nodes[i] in nodes;
    }
  }

  // ----- eachNode -----

  /** A pass as the update it makes to one Point. */
  function StepFn(step: NodeStep, sqrt: real -> real): (f: Point -> Point)
    requires IsSqrt(sqrt)
    ensures forall pt :: f(pt) == Step(step, pt, sqrt)
  {
    pt => Step(step, pt, sqrt)
  }

  /** `eachNode` with a callback that replaces the node's Point by `f` of it. */
  function EachNode(s: State, nodes: seq<Node>, f: Point -> Point, initial: nat -> Vector): (r: State)
    requires Ok(s)
    ensures Ok(r)
    decreases |nodes|
  {
    if nodes == [] then s
    else
      var s1 := EachNode(s, nodes[..|nodes| - 1], f, initial);
      var n := nodes[|nodes| - 1];
      PointOfSpec(s1, n, initial);
      var (s2, h) := PointOf(s1, n, initial);
      s2.(points := s2.points[h := f(s2.points[h])])
  }

  /**
   * Over nodes with distinct ids, `eachNode` makes the same Points as fetching
   * every Point first, and then applies the callback once to the Point of
   * every node and to no other Point.
   */
  lemma {:induction false} EachNodeSpec(s: State, nodes: seq<Node>, f: Point -> Point, initial: nat -> Vector)
    requires Ok(s) && DistinctIds(nodes)
    ensures var r, e := EachNode(s, nodes, f, initial), EnsurePoints(s, nodes, initial);
      && HasPoints(e, nodes)
      && Related(r, e, nodes, f)
    decreases |nodes|
  {
    if nodes != [] {
      var init, n := nodes[..|nodes| - 1], nodes[|nodes| - 1];
      EnsurePointsSpec(s, init, initial);
      var r1, e1 := EachNode(s, init, f, initial), EnsurePoints(s, init, initial);
      LastIdFresh(nodes);
      EachNodeSpec(s, init, f, initial);
      EachNodeStep(r1, e1, nodes, f, initial);
    }
  }

  /** In nodes with distinct ids, the last node's id is not among the others, which keep distinct ids. */
  lemma LastIdFresh(nodes: seq<Node>)
    requires nodes != [] && DistinctIds(nodes)
    ensures DistinctIds(nodes[..|nodes| - 1])
    ensures forall x :: x in nodes[..|nodes| - 1] ==> x.id != nodes[|nodes| - 1].id
  {
    var init := nodes[..|nodes| - 1];
    forall x | x in init ensures x.id != nodes[|nodes| - 1].id {
      var i :| 0 <= i < |init| && init[i] == x;
      assert nodes[i] == x;
    }
  }

  /** `r` is `e` with `f` applied to the Point of every node and to nothing else. */
  ghost predicate Related(r: State, e: State, nodes: seq<Node>, f: Point -> Point)
    requires HasPoints(e, nodes)
  {
    && r.nodePoints == e.nodePoints && r.edgeSprings == e.edgeSprings && |r.points| == |e.points|
    && forall h :: 0 <= h < |e.points| ==>
         r.points[h] == if h in Handles(e, nodes) then f(e.points[h]) else e.points[h]
  }

  lemma EachNodeStep(r1: State, e1: State, nodes: seq<Node>, f: Point -> Point, initial: nat -> Vector)
    requires nodes != []
    requires Ok(r1) && Ok(e1) && HasPoints(e1, nodes[..|nodes| - 1])
    requires Related(r1, e1, nodes[..|nodes| - 1], f)
    requires forall x :: x in nodes[..|nodes| - 1] ==> x.id != nodes[|nodes| - 1].id
    ensures var n := nodes[|nodes| - 1];
      var (e, h) := PointOf(e1, n, initial);
      var (r2, h') := PointOf(r1, n, initial);
      && h' == h && h < |r2.points|
      && HasPoints(e, nodes)
      && Related(r2.(points := r2.points[h := f(r2.points[h])]), e, nodes, f)
  {
    var init, n := nodes[..|nodes| - 1], nodes[|nodes| - 1];
    PointOfSpec(r1, n, initial);
    PointOfSpec(e1, n, initial);
    var (e, h) := PointOf(e1, n, initial);
    var r2 := PointOf(r1, n, initial).0;
    var hs1 := Handles(e1, init);
    HandlesInRange(e1, init);
    assert HasPoints(e, nodes) by {
      forall x | x in nodes ensures x.id in e.nodePoints {
        if x != n {
          assert x in init;
        }
      }
    }
    HandlesSnoc(e1, e, nodes);
    assert r2.points[h] == e.points[h];
    ApplyOneMore(r1.points, e1.points, r2.points, e.points, hs1, h, f);
  }

  /**
   * On the Point sequences: applying `f` at one more handle `h` extends the
   * relation from the handles `hs` to `hs + [h]`.
   */
  lemma ApplyOneMore(r1: seq<Point>, e1: seq<Point>, r2: seq<Point>, e: seq<Point>, hs: seq<nat>, h: nat, f: Point -> Point)
    requires |r1| == |e1| && forall x :: 0 <= x < |e1| ==> r1[x] == if x in hs then f(e1[x]) else e1[x]
    requires |r2| == |e| && h < |e| && r2[h] == e[h]
    requires forall x :: 0 <= x < |e| && x != h ==> x < |e1| && r2[x] == r1[x] && e[x] == e1[x]
    ensures forall x :: 0 <= x < |e| ==> r2[h := f(r2[h])][x] == if x in hs + [h] then f(e[x]) else e[x]
  {
    forall x | 0 <= x < |e| ensures r2[h := f(r2[h])][x] == if x in hs + [h] then f(e[x]) else e[x] {
      if x != h {
        assert x in hs + [h] <==> x in hs;
      }
    }
  }

  /**
   * After `updateVelocity` every node's Point has zero acceleration; a Point
   * heavier than 2 has zero velocity and keeps its mass; any other Point gets
   * the `Physics.Damped` velocity, and its mass is unchanged or multiplied by
   * 1.1, the latter exactly when the speed gain overshot. No node's mass
   * decreases.
   */
  lemma UpdateVelocitySpec(s: State, nodes: seq<Node>, dt: real, damping: real, initial: nat -> Vector, sqrt: real -> real)
    requires Ok(s) && IsSqrt(sqrt) && DistinctIds(nodes)
    ensures var r, e := EachNode(s, nodes, StepFn(Velocity(dt, damping), sqrt), initial), EnsurePoints(s, nodes, initial);
      && HasPoints(e, nodes) && |r.points| == |e.points|
      && forall n :: n in nodes ==>
           var h := e.nodePoints[n.id];
           && h < |e.points|
           && r.points[h].a == Zero && r.points[h].p == e.points[h].p
           && e.points[h].m <= r.points[h].m
           && (e.points[h].m > 2.0 ==> r.points[h].v == Zero && r.points[h].m == e.points[h].m)
           && (e.points[h].m <= 2.0 ==>
                 && (r.points[h].m == e.points[h].m * 1.1 <==> Overspeed(Multiply(e.points[h].a, dt)))
                 && (!Overspeed(Multiply(e.points[h].a, dt)) ==> r.points[h].m == e.points[h].m)
                 && Damped(e.points[h], r.points[h].v, dt, damping))
  {
    EachNodeSpec(s, nodes, StepFn(Velocity(dt, damping), sqrt), initial);
    var e := EnsurePoints(s, nodes, initial);
    EnsurePointsSpec(s, nodes, initial);
    HandlesInRange(e, nodes);
    forall n | n in nodes ensures e.nodePoints[n.id] in Handles(e, nodes) {
      var i :| 0 <= i < |nodes| && nodes[i] == n;
      assert Handles(e, nodes)[i] == e.nodePoints[n.id];
    }
    forall n | n in nodes ensures e.nodePoints[n.id] < |e.points| {
      assert e.nodePoints[n.id] in Handles(e, nodes);
    }
    forall h | 0 <= h < |e.points| {
      VelocityStepSpec(e.points[h], dt, damping, sqrt);
    }
  }

  // ----- applyCoulombsLaw -----

  function Positions(ps: seq<Point>, hs: seq<nat>): (r: seq<Vector>)
    requires InRange(ps, hs)
    ensures |r| == |hs|
  {
    seq(|hs|, i requires 0 <= i < |hs| => ps[hs[i]].p)
  }

  function Masses(ps: seq<Point>, hs: seq<nat>): (r: seq<Mass>)
    requires InRange(ps, hs)
    ensures |r| == |hs|
  {
    seq(|hs|, i requires 0 <= i < |hs| => ps[hs[i]].m)
  }

  /** Distinct positions belong to distinct Points. */
  lemma SeparatedDistinct(ps: seq<Point>, hs: seq<nat>)
    requires InRange(ps, hs) && Separated(Positions(ps, hs))
    ensures NoDup(hs)
  {
    forall i, j | 0 <= i < j < |hs| ensures hs[i] != hs[j] {
      assert Positions(ps, hs)[i] != Positions(ps, hs)[j];
    }
  }

  /** `ps` with `acc[i]` added to the acceleration of the Point at `hs[i]`. */
  function AddAccels(ps: seq<Point>, hs: seq<nat>, acc: seq<Vector>): (r: seq<Point>)
    requires InRange(ps, hs) && |acc| == |hs|
    ensures |r| == |ps|
  {
    seq(|ps|, h requires 0 <= h < |ps| =>
      if h in hs then ps[h].(a := Add(ps[h].a, acc[FirstIndex(hs, h)])) else ps[h])
  }

  /** The Points of the nodes and the pair forces between them are defined. */
  ghost predicate CoulombReady(s: State, nodes: seq<Node>, initial: nat -> Vector)
    requires Ok(s)
  {
    var e := EnsurePoints(s, nodes, initial);
    EnsurePointsSpec(s, nodes, initial);
    HandlesInRange(e, nodes);
    Separated(Positions(e.points, Handles(e, nodes)))
  }

  /**
   * `applyCoulombsLaw`: every node's Point is fetched, then the repulsion of
   * every other node's Point is added to its acceleration.
   */
  function Coulomb(s: State, nodes: seq<Node>, rep: real, initial: nat -> Vector): (r: State)
    requires Ok(s) && CoulombReady(s, nodes, initial)
    ensures Ok(r)
  {
    var e := EnsurePoints(s, nodes, initial);
    EnsurePointsSpec(s, nodes, initial);
    var hs := Handles(e, nodes);
    HandlesInRange(e, nodes);
    var pos, ms := Positions(e.points, hs), Masses(e.points, hs);
    e.(points := AddAccels(e.points, hs, Accels(pos, ms, rep)))
  }

  /**
   * `applyCoulombsLaw` changes only accelerations, and only those of the
   * nodes' Points; their mass-weighted changes sum to zero.
   */
  lemma CoulombSpec(s: State, nodes: seq<Node>, rep: real, initial: nat -> Vector)
    requires Ok(s) && CoulombReady(s, nodes, initial)
    ensures var r, e := Coulomb(s, nodes, rep, initial), EnsurePoints(s, nodes, initial);
      && HasPoints(e, nodes)
      && var hs := Handles(e, nodes);
      && InRange(e.points, hs) && NoDup(hs)
      && r.nodePoints == e.nodePoints && r.edgeSprings == e.edgeSprings
      && OnlyAccelerations(e.points, r.points) && |r.points| == |e.points|
      && (forall h :: 0 <= h < |e.points| && h !in hs ==> r.points[h] == e.points[h])
      && MomentumSum(Changes(e.points, r.points, hs), Masses(e.points, hs), |hs|) == Zero
  {
    var e := EnsurePoints(s, nodes, initial);
    EnsurePointsSpec(s, nodes, initial);
    var hs := Handles(e, nodes);
    HandlesInRange(e, nodes);
    var pos, ms := Positions(e.points, hs), Masses(e.points, hs);
    SeparatedDistinct(e.points, hs);
    var acc := Accels(pos, ms, rep);
    AddAccelsSpec(e.points, hs, acc);
    CoulombMomentum(pos, ms, rep);
  }

  /** Adding accelerations at distinct indices changes just those accelerations, by just those amounts. */
  lemma AddAccelsSpec(ps: seq<Point>, hs: seq<nat>, acc: seq<Vector>)
    requires InRange(ps, hs) && |acc| == |hs| && NoDup(hs)
    ensures var r := AddAccels(ps, hs, acc);
      && OnlyAccelerations(ps, r)
      && (forall h :: 0 <= h < |ps| && h !in hs ==> r[h] == ps[h])
      && Changes(ps, r, hs) == acc
  {
    var r := AddAccels(ps, hs, acc);
    forall i | 0 <= i < |hs| ensures Changes(ps, r, hs)[i] == acc[i] {
      assert hs[i] in hs;
      NoDupFirstIndex(hs, i);
    }
  }

  lemma NoDupFirstIndex(hs: seq<nat>, i: nat)
    requires NoDup(hs) && i < |hs|
    ensures hs[i] in hs && FirstIndex(hs, hs[i]) == i
  {
    var k := FirstIndex(hs, hs[i]);
    assert hs[k] == hs[i];
  }

  /** The change of acceleration of the Point at each `hs[i]`. */
  function Changes(ps: seq<Point>, ps': seq<Point>, hs: seq<nat>): (r: seq<Vector>)
    requires InRange(ps, hs) && |ps| <= |ps'|
    ensures |r| == |hs|
  {
    seq(|hs|, i requires 0 <= i < |hs| => Subtract(ps'[hs[i]].a, ps[hs[i]].a))
  }

  // ----- applyHookesLaw -----

  /** `applyHookesLaw`: `spring` for each edge in turn, then its force on its two Points. */
  function Hooke(s: State, g: GraphValue, edges: seq<Edge>, stiffness: real, initial: nat -> Vector, sqrt: real -> real): (r: State)
    requires Ok(s) && IsSqrt(sqrt)
    ensures Ok(r)
    decreases |edges|
  {
    if edges == [] then s
    else
      var s1 := Hooke(s, g, edges[..|edges| - 1], stiffness, initial, sqrt);
      var e := edges[|edges| - 1];
      SpringOfFrame(s1, g, e, stiffness, initial);
      var (s2, sp) := SpringOf(s1, g, e, stiffness, initial);
      var ps := ApplySpring(s2.points, sp, sqrt);
      OkKeepsLength(s2, ps);
      s2.(points := ps)
  }

  /**
   * `applyHookesLaw` changes only accelerations of existing Points and keeps
   * every cached Point and Spring (each spring it applies acts as
   * `Physics.SpringForce` states; `HookeMerged` states what it caches).
   */
  lemma {:induction false} HookeSpec(s: State, g: GraphValue, edges: seq<Edge>, stiffness: real, initial: nat -> Vector, sqrt: real -> real)
    requires Ok(s) && IsSqrt(sqrt)
    ensures var r := Hooke(s, g, edges, stiffness, initial, sqrt);
      && OnlyAccelerations(s.points, r.points)
      && (forall id :: id in s.nodePoints ==> id in r.nodePoints && r.nodePoints[id] == s.nodePoints[id])
      && (forall id :: id in s.edgeSprings ==> id in r.edgeSprings && r.edgeSprings[id] == s.edgeSprings[id])
    decreases |edges|
  {
    if edges != [] {
      var init, e := edges[..|edges| - 1], edges[|edges| - 1];
      HookeSpec(s, g, init, stiffness, initial, sqrt);
      var s1 := Hooke(s, g, init, stiffness, initial, sqrt);
      SpringOfFrame(s1, g, e, stiffness, initial);
      var (s2, sp) := SpringOf(s1, g, e, stiffness, initial);
      ApplySpringSpec(s2.points, sp, sqrt);
    }
  }

  /** Every edge of the list is filed under its own endpoints. */
  ghost predicate Listed(g: GraphValue, edges: seq<Edge>)
  {
    forall e :: e in edges ==> HasId(g.GetEdges(e.source.id, e.target.id), e.id)
  }

  lemma {:induction false} HookeMerged(s: State, g: GraphValue, edges: seq<Edge>, stiffness: real, initial: nat -> Vector, sqrt: real -> real)
    requires Ok(s) && IsSqrt(sqrt) && Merged(s) && Faithful(s, g) && Listed(g, edges)
    ensures var r := Hooke(s, g, edges, stiffness, initial, sqrt);
      Merged(r) && Faithful(r, g)
    decreases |edges|
  {
    if edges != [] {
      var init, e := edges[..|edges| - 1], edges[|edges| - 1];
      assert Listed(g, init) by {
        forall x | x in init ensures x in edges {
        }
      }
      HookeMerged(s, g, init, stiffness, initial, sqrt);
      var s1 := Hooke(s, g, init, stiffness, initial, sqrt);
      SpringOfMerged(s1, g, e, stiffness, initial);
      var s2 := SpringOf(s1, g, e, stiffness, initial).0;
      SpringOfFrame(s1, g, e, stiffness, initial);
      FaithfulGrows(s2, s2.(points := Hooke(s, g, edges, stiffness, initial, sqrt).points), g);
    }
  }

  /** Faithfulness looks only at the caches; extending the node cache keeps it. */
  lemma FaithfulGrows(s: State, s': State, g: GraphValue)
    requires Faithful(s, g) && s'.edgeSprings == s.edgeSprings
    requires forall id :: id in s.nodePoints ==> id in s'.nodePoints && s'.nodePoints[id] == s.nodePoints[id]
    ensures Faithful(s', g) && (Merged(s) ==> Merged(s'))
  {
    forall id | id in s'.edgeSprings ensures SpringListed(s', g, id) {
      assert SpringListed(s, g, id);
      var a, b :| a in s.nodePoints && b in s.nodePoints
        && s.edgeSprings[id].point1 == s.nodePoints[a]
        && s.edgeSprings[id].point2 == s.nodePoints[b]
        && HasId(g.GetEdges(a, b), id);
      assert a in s'.nodePoints && b in s'.nodePoints;
    }
  }

  // ----- totalEnergy -----

  /** `totalEnergy`: the sum of `0.5 * m * speed * speed` over the nodes' Points, fetching each. */
  function Energy(s: State, nodes: seq<Node>, initial: nat -> Vector, sqrt: real -> real): (r: (State, real))
    requires Ok(s) && IsSqrt(sqrt)
    ensures r.0 == EnsurePoints(s, nodes, initial)
    decreases |nodes|
  {
    if nodes == [] then (s, 0.0)
    else
      var (s1, e) := Energy(s, nodes[..|nodes| - 1], initial, sqrt);
      EnsurePointsSpec(s, nodes[..|nodes| - 1], initial);
      PointOfSpec(s1, nodes[|nodes| - 1], initial);
      var (s2, h) := PointOf(s1, nodes[|nodes| - 1], initial);
      (s2, e + Kinetic(s2.points[h], sqrt))
  }

  /** The kinetic energies of the Points at `hs`, summed. */
  function KineticSum(ps: seq<Point>, hs: seq<nat>, sqrt: real -> real): real
    requires InRange(ps, hs) && IsSqrt(sqrt)
    decreases |hs|
  {
    if hs == [] then 0.0 else KineticSum(ps, hs[..|hs| - 1], sqrt) + Kinetic(ps[hs[|hs| - 1]], sqrt)
  }

  /** A Handles prefix plus the newest node's Point. */
  lemma HandlesSnoc(s1: State, s: State, nodes: seq<Node>)
    requires nodes != [] && HasPoints(s1, nodes[..|nodes| - 1]) && HasPoints(s, nodes)
    requires forall id :: id in s1.nodePoints ==> id in s.nodePoints && s.nodePoints[id] == s1.nodePoints[id]
    ensures Handles(s, nodes) == Handles(s1, nodes[..|nodes| - 1]) + [s.nodePoints[nodes[|nodes| - 1].id]]
  {
    var init := nodes[..|nodes| - 1];
    forall i | 0 <= i < |init| ensures Handles(s, nodes)[i] == Handles(s1, init)[i] {
      assert init[i] in init;
    }
  }

  lemma {:induction false} KineticSumPrefix(ps: seq<Point>, ps': seq<Point>, hs: seq<nat>, sqrt: real -> real)
    requires InRange(ps, hs) && ps <= ps' && IsSqrt(sqrt)
    ensures InRange(ps', hs) && KineticSum(ps', hs, sqrt) == KineticSum(ps, hs, sqrt)
    decreases |hs|
  {
    if hs != [] {
      KineticSumPrefix(ps, ps', hs[..|hs| - 1], sqrt);
      assert ps'[hs[|hs| - 1]] == ps[hs[|hs| - 1]];
    }
  }

  /** `totalEnergy` sums the kinetic energy of every node's Point once. */
  lemma {:induction false} EnergySpec(s: State, nodes: seq<Node>, initial: nat -> Vector, sqrt: real -> real)
    requires Ok(s) && IsSqrt(sqrt)
    ensures var e := EnsurePoints(s, nodes, initial);
      && Ok(e) && HasPoints(e, nodes) && InRange(e.points, Handles(e, nodes))
      && Energy(s, nodes, initial, sqrt).1 == KineticSum(e.points, Handles(e, nodes), sqrt)
    decreases |nodes|
  {
    var e := EnsurePoints(s, nodes, initial);
    EnsurePointsSpec(s, nodes, initial);
    HandlesInRange(e, nodes);
    if nodes != [] {
      var init := nodes[..|nodes| - 1];
      EnergySpec(s, init, initial, sqrt);
      EnsurePointsSpec(s, init, initial);
      var e1 := EnsurePoints(s, init, initial);
      var (e2, h) := PointOf(e1, nodes[|nodes| - 1], initial);
      PointOfSpec(e1, nodes[|nodes| - 1], initial);
      assert e2 == e;
      var sum := Energy(s, init, initial, sqrt).1;
      assert Energy(s, nodes, initial, sqrt).1 == sum + Kinetic(e.points[h], sqrt);
      EnergyStep(e1, e, h, nodes, sum, sqrt);
    }
  }

  lemma EnergyStep(e1: State, e: State, h: nat, nodes: seq<Node>, sum: real, sqrt: real -> real)
    requires nodes != [] && IsSqrt(sqrt) && HasPoints(e1, nodes[..|nodes| - 1]) && HasPoints(e, nodes)
    requires InRange(e1.points, Handles(e1, nodes[..|nodes| - 1]))
    requires sum == KineticSum(e1.points, Handles(e1, nodes[..|nodes| - 1]), sqrt)
    requires e1.points <= e.points && h < |e.points| && e.nodePoints[nodes[|nodes| - 1].id] == h
    requires forall id :: id in e1.nodePoints ==> id in e.nodePoints && e.nodePoints[id] == e1.nodePoints[id]
    ensures InRange(e.points, Handles(e, nodes))
    ensures sum + Kinetic(e.points[h], sqrt) == KineticSum(e.points, Handles(e, nodes), sqrt)
  {
    var init := nodes[..|nodes| - 1];
    HandlesSnoc(e1, e, nodes);
    KineticSumPrefix(e1.points, e.points, Handles(e1, init), sqrt);
    var hs := Handles(e, nodes);
    assert hs[..|hs| - 1] == Handles(e1, init);
  }

  /** Every Point listed in `hs` is at rest. */
  ghost predicate AtRest(ps: seq<Point>, hs: seq<nat>)
    requires InRange(ps, hs)
  {
    forall i :: 0 <= i < |hs| ==> ps[hs[i]].v == Zero
  }

  /** A sum of kinetic energies is never negative, and is zero exactly when every Point is at rest. */
  lemma {:induction false} KineticSumSign(ps: seq<Point>, hs: seq<nat>, sqrt: real -> real)
    requires InRange(ps, hs) && IsSqrt(sqrt)
    ensures 0.0 <= KineticSum(ps, hs, sqrt)
    ensures KineticSum(ps, hs, sqrt) == 0.0 <==> AtRest(ps, hs)
    decreases |hs|
  {
    if hs != [] {
      var init, h := hs[..|hs| - 1], hs[|hs| - 1];
      KineticSumSign(ps, init, sqrt);
      KineticSign(ps[h], sqrt);
      assert KineticSum(ps, hs, sqrt) == KineticSum(ps, init, sqrt) + Kinetic(ps[h], sqrt);
      AtRestSnoc(ps, hs);
    }
  }

  /** The last Point is at rest along with the others exactly when all are. */
  lemma AtRestSnoc(ps: seq<Point>, hs: seq<nat>)
    requires InRange(ps, hs) && hs != []
    ensures AtRest(ps, hs) <==> AtRest(ps, hs[..|hs| - 1]) && ps[hs[|hs| - 1]].v == Zero
  {
    var init := hs[..|hs| - 1];
    assert forall i :: 0 <= i < |init| ==> init[i] == hs[i];
  }

  /**
   * The energy `tick` compares with the threshold is never negative, and is zero exactly
   * when every node's Point is at rest.
   */
  lemma EnergyAtRest(s: State, nodes: seq<Node>, initial: nat -> Vector, sqrt: real -> real)
    requires Ok(s) && IsSqrt(sqrt)
    ensures var e := EnsurePoints(s, nodes, initial);
      && HasPoints(e, nodes) && (forall i :: 0 <= i < |nodes| ==> e.nodePoints[nodes[i].id] < |e.points|)
      && 0.0 <= Energy(s, nodes, initial, sqrt).1
      && (Energy(s, nodes, initial, sqrt).1 == 0.0 <==>
            forall i :: 0 <= i < |nodes| ==> e.points[e.nodePoints[nodes[i].id]].v == Zero)
  {
    EnergySpec(s, nodes, initial, sqrt);
    var e := EnsurePoints(s, nodes, initial);
    var hs := Handles(e, nodes);
    KineticSumSign(e.points, hs, sqrt);
    assert forall i :: 0 <= i < |nodes| ==> hs[i] == e.nodePoints[nodes[i].id];
  }

  // ----- nearest -----

  /** The node `nearest` picked, the index of its Point, and that Point's distance from the target. */
  datatype Closest = Closest(node: Node, point: nat, distance: real)

  function Distance(pt: Point, pos: Vector, sqrt: real -> real): real
    requires IsSqrt(sqrt)
  {
    Magnitude(Subtract(pt.p, pos), sqrt)
  }

  /**
   * `nearest`: fetches every node's Point in order and keeps the first node
   * whose Point is strictly closer than the best so far; no node gives None.
   */
  function Nearest(s: State, nodes: seq<Node>, pos: Vector, initial: nat -> Vector, sqrt: real -> real): (r: (State, Option<Closest>))
    requires Ok(s) && IsSqrt(sqrt)
    ensures r.0 == EnsurePoints(s, nodes, initial)
    decreases |nodes|
  {
    if nodes == [] then (s, None)
    else
      var (s1, best) := Nearest(s, nodes[..|nodes| - 1], pos, initial, sqrt);
      EnsurePointsSpec(s, nodes[..|nodes| - 1], initial);
      PointOfSpec(s1, nodes[|nodes| - 1], initial);
      var (s2, h) := PointOf(s1, nodes[|nodes| - 1], initial);
      var d := Distance(s2.points[h], pos, sqrt);
      if best.None? || d < best.value.distance then (s2, Some(Closest(nodes[|nodes| - 1], h, d)))
      else (s2, best)
  }

  /** The distance of the Point of `n` in `e` from `pos`. */
  ghost function NodeDistance(e: State, n: Node, pos: Vector, sqrt: real -> real): real
    requires Ok(e) && n.id in e.nodePoints && IsSqrt(sqrt)
  {
    Distance(e.points[e.nodePoints[n.id]], pos, sqrt)
  }

  /** The distances of the nodes' Points from `pos`, in node order. */
  ghost function Distances(e: State, nodes: seq<Node>, pos: Vector, sqrt: real -> real): (ds: seq<real>)
    requires Ok(e) && HasPoints(e, nodes) && IsSqrt(sqrt)
    ensures |ds| == |nodes|
  {
    seq(|nodes|, j requires 0 <= j < |nodes| => NodeDistance(e, nodes[j], pos, sqrt))
  }

  /** `ds[i]` is a minimum of `ds`, and every earlier entry is strictly larger. */
  ghost predicate FirstMin(ds: seq<real>, i: int)
  {
    && 0 <= i < |ds|
    && (forall j :: 0 <= j < |ds| ==> ds[i] <= ds[j])
    && (forall j :: 0 <= j < i ==> ds[i] < ds[j])
  }

  /** Appending an entry keeps the first minimum unless the new entry is strictly smaller. */
  lemma FirstMinSnoc(ds: seq<real>, i1: int)
    requires |ds| > 1 && FirstMin(ds[..|ds| - 1], i1)
    ensures ds[|ds| - 1] < ds[i1] ==> FirstMin(ds, |ds| - 1)
    ensures ds[i1] <= ds[|ds| - 1] ==> FirstMin(ds, i1)
  {
    assert forall j :: 0 <= j < |ds| - 1 ==> ds[..|ds| - 1][j] == ds[j];
  }

  /** `best` is the first node of `nodes` of minimum distance, with its Point and distance. */
  ghost predicate IsNearest(e: State, nodes: seq<Node>, pos: Vector, sqrt: real -> real, best: Closest)
    requires Ok(e) && HasPoints(e, nodes) && IsSqrt(sqrt)
  {
    exists i :: FirstMin(Distances(e, nodes, pos, sqrt), i) &&
      best == Closest(nodes[i], e.nodePoints[nodes[i].id], NodeDistance(e, nodes[i], pos, sqrt))
  }

  /**
   * `nearest` finds nothing exactly when there are no nodes; otherwise it returns the
   * first node of minimum distance, with that node's Point and distance.
   */
  lemma {:induction false} NearestSpec(s: State, nodes: seq<Node>, pos: Vector, initial: nat -> Vector, sqrt: real -> real)
    requires Ok(s) && IsSqrt(sqrt)
    ensures var (e, best) := Nearest(s, nodes, pos, initial, sqrt);
      && Ok(e) && HasPoints(e, nodes)
      && (best.None? <==> nodes == [])
      && (best.Some? ==> IsNearest(e, nodes, pos, sqrt, best.value))
    decreases |nodes|
  {
    EnsurePointsSpec(s, nodes, initial);
    if nodes != [] {
      var init, n := nodes[..|nodes| - 1], nodes[|nodes| - 1];
      NearestSpec(s, init, pos, initial, sqrt);
      EnsurePointsSpec(s, init, initial);
      var (e1, best1) := Nearest(s, init, pos, initial, sqrt);
      PointOfSpec(e1, n, initial);
      var (e, h) := PointOf(e1, n, initial);
      var d := Distance(e.points[h], pos, sqrt);
      var best := Nearest(s, nodes, pos, initial, sqrt).1;
      assert best == if best1.None? || d < best1.value.distance then Some(Closest(n, h, d)) else best1;
      DistancesKept(e1, e, init, pos, sqrt);
      PrefixDistances(e, nodes, pos, sqrt);
      NearestStep(e1, e, nodes, pos, sqrt, best1, best);
    }
  }

  lemma NearestStep(e1: State, e: State, nodes: seq<Node>, pos: Vector, sqrt: real -> real,
                    best1: Option<Closest>, best: Option<Closest>)
    requires nodes != [] && Ok(e1) && Ok(e) && IsSqrt(sqrt)
    requires HasPoints(e1, nodes[..|nodes| - 1]) && HasPoints(e, nodes) && HasPoints(e, nodes[..|nodes| - 1])
    requires Distances(e, nodes, pos, sqrt)[..|nodes| - 1] == Distances(e1, nodes[..|nodes| - 1], pos, sqrt)
    requires Distances(e, nodes, pos, sqrt)[|nodes| - 1] == NodeDistance(e, nodes[|nodes| - 1], pos, sqrt)
    requires forall x :: x in nodes[..|nodes| - 1] ==> e.nodePoints[x.id] == e1.nodePoints[x.id]
    requires best1.None? <==> nodes[..|nodes| - 1] == []
    requires best1.Some? ==> IsNearest(e1, nodes[..|nodes| - 1], pos, sqrt, best1.value)
    requires var n := nodes[|nodes| - 1];
      var d := NodeDistance(e, n, pos, sqrt);
      best == if best1.None? || d < best1.value.distance then Some(Closest(n, e.nodePoints[n.id], d)) else best1
    ensures best.Some? && IsNearest(e, nodes, pos, sqrt, best.value)
  {
    var init := nodes[..|nodes| - 1];
    if best1.None? {
      NearestFirst(e, nodes, pos, sqrt, best.value);
    } else {
      var i1 :| FirstMin(Distances(e1, init, pos, sqrt), i1) &&
        best1.value == Closest(init[i1], e1.nodePoints[init[i1].id], NodeDistance(e1, init[i1], pos, sqrt));
      NearestOnward(e1, e, nodes, pos, sqrt, i1, best1.value, best.value);
    }
  }

  /** The only node is the nearest one. */
  lemma NearestFirst(e: State, nodes: seq<Node>, pos: Vector, sqrt: real -> real, best: Closest)
    requires |nodes| == 1 && Ok(e) && HasPoints(e, nodes) && IsSqrt(sqrt)
    requires Distances(e, nodes, pos, sqrt)[0] == NodeDistance(e, nodes[0], pos, sqrt)
    requires best == Closest(nodes[0], e.nodePoints[nodes[0].id], NodeDistance(e, nodes[0], pos, sqrt))
    ensures IsNearest(e, nodes, pos, sqrt, best)
  {
    assert FirstMin(Distances(e, nodes, pos, sqrt), 0);
    NearestWitness(e, nodes, pos, sqrt, 0, best);
  }

  /** The last node replaces the nearest of the others only when it is strictly nearer. */
  lemma NearestOnward(e1: State, e: State, nodes: seq<Node>, pos: Vector, sqrt: real -> real,
                      i1: int, best1: Closest, best: Closest)
    requires |nodes| > 1 && Ok(e1) && Ok(e) && IsSqrt(sqrt)
    requires HasPoints(e1, nodes[..|nodes| - 1]) && HasPoints(e, nodes)
    requires Distances(e, nodes, pos, sqrt)[..|nodes| - 1] == Distances(e1, nodes[..|nodes| - 1], pos, sqrt)
    requires Distances(e, nodes, pos, sqrt)[|nodes| - 1] == NodeDistance(e, nodes[|nodes| - 1], pos, sqrt)
    requires forall x :: x in nodes[..|nodes| - 1] ==> e.nodePoints[x.id] == e1.nodePoints[x.id]
    requires FirstMin(Distances(e1, nodes[..|nodes| - 1], pos, sqrt), i1)
    requires var init := nodes[..|nodes| - 1];
      best1 == Closest(init[i1], e1.nodePoints[init[i1].id], NodeDistance(e1, init[i1], pos, sqrt))
    requires var n := nodes[|nodes| - 1];
      var d := NodeDistance(e, n, pos, sqrt);
      best == if d < best1.distance then Closest(n, e.nodePoints[n.id], d) else best1
    ensures IsNearest(e, nodes, pos, sqrt, best)
  {
    var ds := Distances(e, nodes, pos, sqrt);
    FirstMinSnoc(ds, i1);
    if ds[|nodes| - 1] < ds[i1] {
      NearestWitness(e, nodes, pos, sqrt, |nodes| - 1, best);
    } else {
      NearestKept(e1, e, nodes, pos, sqrt, i1, best);
    }
  }

  /** The earlier best node stays the answer, as it is recorded in the earlier state. */
  lemma NearestKept(e1: State, e: State, nodes: seq<Node>, pos: Vector, sqrt: real -> real, i1: int, best: Closest)
    requires nodes != [] && Ok(e1) && Ok(e) && IsSqrt(sqrt)
    requires HasPoints(e1, nodes[..|nodes| - 1]) && HasPoints(e, nodes)
    requires forall x :: x in nodes[..|nodes| - 1] ==> e.nodePoints[x.id] == e1.nodePoints[x.id]
    requires 0 <= i1 < |nodes| - 1 && FirstMin(Distances(e, nodes, pos, sqrt), i1)
    requires Distances(e, nodes, pos, sqrt)[i1] == NodeDistance(e1, nodes[i1], pos, sqrt)
    requires var init := nodes[..|nodes| - 1];
      best == Closest(init[i1], e1.nodePoints[init[i1].id], NodeDistance(e1, init[i1], pos, sqrt))
    ensures IsNearest(e, nodes, pos, sqrt, best)
  {
    var init := nodes[..|nodes| - 1];
    assert nodes[i1] == init[i1] && init[i1] in init;
    NearestWitness(e, nodes, pos, sqrt, i1, best);
  }

  lemma PrefixDistances(e: State, nodes: seq<Node>, pos: Vector, sqrt: real -> real)
    requires nodes != [] && Ok(e) && HasPoints(e, nodes) && IsSqrt(sqrt)
    ensures HasPoints(e, nodes[..|nodes| - 1])
    ensures Distances(e, nodes, pos, sqrt)[..|nodes| - 1] == Distances(e, nodes[..|nodes| - 1], pos, sqrt)
    ensures Distances(e, nodes, pos, sqrt)[|nodes| - 1] == NodeDistance(e, nodes[|nodes| - 1], pos, sqrt)
  {
    assert forall x :: x in nodes[..|nodes| - 1] ==> x in nodes;
  }

  lemma NearestWitness(e: State, nodes: seq<Node>, pos: Vector, sqrt: real -> real, i: int, best: Closest)
    requires Ok(e) && HasPoints(e, nodes) && IsSqrt(sqrt)
    requires FirstMin(Distances(e, nodes, pos, sqrt), i)
    requires best == Closest(nodes[i], e.nodePoints[nodes[i].id], NodeDistance(e, nodes[i], pos, sqrt))
    ensures IsNearest(e, nodes, pos, sqrt, best)
  {
  }

  /** Fetching more Points leaves the distances of nodes that already had one unchanged. */
  lemma DistancesKept(e1: State, e: State, nodes: seq<Node>, pos: Vector, sqrt: real -> real)
    requires Ok(e1) && Ok(e) && HasPoints(e1, nodes) && IsSqrt(sqrt) && e1.points <= e.points
    requires forall id :: id in e1.nodePoints ==> id in e.nodePoints && e.nodePoints[id] == e1.nodePoints[id]
    ensures HasPoints(e, nodes)
    ensures Distances(e, nodes, pos, sqrt) == Distances(e1, nodes, pos, sqrt)
  {
    forall j | 0 <= j < |nodes| ensures NodeDistance(e, nodes[j], pos, sqrt) == NodeDistance(e1, nodes[j], pos, sqrt) {
      assert nodes[j] in nodes;
      var h := e1.nodePoints[nodes[j].id];
      assert e.points[h] == e1.points[h];
    }
  }

  // ----- tick -----

  /** The constants `ForceDirected` is made with. */
  datatype Params = Params(stiffness: real, repulsion: real, damping: real)

  /**
   * `tick(timestep)`: Coulomb's law, Hooke's law, the pull to the centre, the
   * velocity update and the position update, in that order.
   */
  function Tick(s: State, g: GraphValue, prm: Params, dt: real, initial: nat -> Vector, sqrt: real -> real): (r: State)
    requires Ok(s) && IsSqrt(sqrt) && CoulombReady(s, g.nodes, initial)
    ensures Ok(r)
  {
    var s1 := Coulomb(s, g.nodes, prm.repulsion, initial);
    var s2 := Hooke(s1, g, g.edges, prm.stiffness, initial, sqrt);
    var s3 := EachNode(s2, g.nodes, StepFn(Centre(prm.repulsion), sqrt), initial);
    var s4 := EachNode(s3, g.nodes, StepFn(Velocity(dt, prm.damping), sqrt), initial);
    EachNode(s4, g.nodes, StepFn(Position(dt), sqrt), initial)
  }

  /** Fetching the Points of nodes that all have one changes nothing. */
  lemma {:induction false} EnsurePointsCached(s: State, nodes: seq<Node>, initial: nat -> Vector)
    requires HasPoints(s, nodes)
    ensures EnsurePoints(s, nodes, initial) == s
    decreases |nodes|
  {
    if nodes != [] {
      var init := nodes[..|nodes| - 1];
      assert HasPoints(s, init) by {
        forall x | x in init ensures x in nodes {
        }
      }
      EnsurePointsCached(s, init, initial);
    }
  }

  /** A pass over nodes that all have a Point applies `f` to exactly their Points. */
  lemma EachNodeAt(s: State, nodes: seq<Node>, f: Point -> Point, initial: nat -> Vector)
    requires Ok(s) && DistinctIds(nodes) && HasPoints(s, nodes)
    ensures var r := EachNode(s, nodes, f, initial);
      && r.nodePoints == s.nodePoints && r.edgeSprings == s.edgeSprings && |r.points| == |s.points|
      && forall n :: n in nodes ==> r.points[s.nodePoints[n.id]] == f(s.points[s.nodePoints[n.id]])
  {
    EnsurePointsCached(s, nodes, initial);
    EachNodeSpec(s, nodes, f, initial);
    forall n | n in nodes ensures s.nodePoints[n.id] in Handles(s, nodes) {
      var i :| 0 <= i < |nodes| && nodes[i] == n;
      assert Handles(s, nodes)[i] == s.nodePoints[n.id];
    }
  }

  /**
   * After a tick every node keeps its Point, with its acceleration cleared and
   * its mass not decreased; a node whose Point is heavier than 2 stays where
   * it was, at rest, with the same mass. No cached Point or Spring is dropped.
   */
  lemma TickSpec(s: State, g: GraphValue, prm: Params, dt: real, initial: nat -> Vector, sqrt: real -> real)
    requires Ok(s) && IsSqrt(sqrt) && CoulombReady(s, g.nodes, initial) && DistinctIds(g.nodes)
    ensures var e, r := EnsurePoints(s, g.nodes, initial), Tick(s, g, prm, dt, initial, sqrt);
      && HasPoints(e, g.nodes) && HasPoints(r, g.nodes)
      && (forall id :: id in s.nodePoints ==> id in r.nodePoints && r.nodePoints[id] == s.nodePoints[id])
      && (forall id :: id in s.edgeSprings ==> id in r.edgeSprings && r.edgeSprings[id] == s.edgeSprings[id])
      && forall n :: n in g.nodes ==>
           var h := e.nodePoints[n.id];
           && r.nodePoints[n.id] == h && h < |e.points| && h < |r.points|
           && r.points[h].a == Zero && e.points[h].m <= r.points[h].m
           && (e.points[h].m > 2.0 ==>
                 r.points[h].p == e.points[h].p && r.points[h].v == Zero && r.points[h].m == e.points[h].m)
  {
    var N := g.nodes;
    var e := EnsurePoints(s, N, initial);
    EnsurePointsSpec(s, N, initial);
    CoulombSpec(s, N, prm.repulsion, initial);
    var s1 := Coulomb(s, N, prm.repulsion, initial);
    HookeSpec(s1, g, g.edges, prm.stiffness, initial, sqrt);
    var s2 := Hooke(s1, g, g.edges, prm.stiffness, initial, sqrt);
    assert HasPoints(s2, N);
    var fc, fv, fp := StepFn(Centre(prm.repulsion), sqrt), StepFn(Velocity(dt, prm.damping), sqrt), StepFn(Position(dt), sqrt);
    EachNodeAt(s2, N, fc, initial);
    var s3 := EachNode(s2, N, fc, initial);
    EachNodeAt(s3, N, fv, initial);
    var s4 := EachNode(s3, N, fv, initial);
    EachNodeAt(s4, N, fp, initial);
    var r := EachNode(s4, N, fp, initial);
    assert r == Tick(s, g, prm, dt, initial, sqrt);
    forall n | n in N
      ensures var h := e.nodePoints[n.id];
        && r.nodePoints[n.id] == h && h < |e.points| && h < |r.points|
        && r.points[h].a == Zero && e.points[h].m <= r.points[h].m
        && (e.points[h].m > 2.0 ==>
              r.points[h].p == e.points[h].p && r.points[h].v == Zero && r.points[h].m == e.points[h].m)
    {
      var h := e.nodePoints[n.id];
      assert h < |e.points| && h < |s1.points|;
      PointTick(e.points[h], s2.points[h], prm.repulsion, dt, prm.damping, sqrt);
    }
  }

  /** A tick keeps the springs merged and every Spring tied to a listed edge. */
  lemma TickKeepsSprings(s: State, g: GraphValue, prm: Params, dt: real, initial: nat -> Vector, sqrt: real -> real)
    requires Ok(s) && IsSqrt(sqrt) && CoulombReady(s, g.nodes, initial)
    requires Merged(s) && Faithful(s, g) && Listed(g, g.edges)
    ensures var r := Tick(s, g, prm, dt, initial, sqrt);
      Merged(r) && Faithful(r, g)
  {
    var N := g.nodes;
    var e := EnsurePoints(s, N, initial);
    EnsurePointsSpec(s, N, initial);
    FaithfulGrows(s, e, g);
    var s1 := Coulomb(s, N, prm.repulsion, initial);
    FaithfulGrows(e, s1, g);
    HookeMerged(s1, g, g.edges, prm.stiffness, initial, sqrt);
    var s2 := Hooke(s1, g, g.edges, prm.stiffness, initial, sqrt);
    EachNodeKeepsCaches(s2, N, StepFn(Centre(prm.repulsion), sqrt), initial);
    var s3 := EachNode(s2, N, StepFn(Centre(prm.repulsion), sqrt), initial);
    FaithfulGrows(s2, s3, g);
    EachNodeKeepsCaches(s3, N, StepFn(Velocity(dt, prm.damping), sqrt), initial);
    var s4 := EachNode(s3, N, StepFn(Velocity(dt, prm.damping), sqrt), initial);
    FaithfulGrows(s3, s4, g);
    EachNodeKeepsCaches(s4, N, StepFn(Position(dt), sqrt), initial);
    FaithfulGrows(s4, EachNode(s4, N, StepFn(Position(dt), sqrt), initial), g);
  }

  /** A pass may add Points for nodes that lack one, and changes no other cache entry. */
  lemma {:induction false} EachNodeKeepsCaches(s: State, nodes: seq<Node>, f: Point -> Point, initial: nat -> Vector)
    requires Ok(s)
    ensures var r := EachNode(s, nodes, f, initial);
      && r.edgeSprings == s.edgeSprings
      && forall id :: id in s.nodePoints ==> id in r.nodePoints && r.nodePoints[id] == s.nodePoints[id]
    decreases |nodes|
  {
    if nodes != [] {
      EachNodeKeepsCaches(s, nodes[..|nodes| - 1], f, initial);
      PointOfSpec(EachNode(s, nodes[..|nodes| - 1], f, initial), nodes[|nodes| - 1], initial);
    }
  }
}
