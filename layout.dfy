/**
 * `Layout.ForceDirected` (src/springy3d.js) as an object: the Point and
 * Spring caches and the run flags are fields the methods update in place,
 * and each method is proved to do what the matching function of
 * `Caches`, `Simulation` or `Lifecycle` says.
 */
module Layout {
  import opened Wrappers
  import opened Seqs
  import opened Vectors
  import opened Graphs
  import opened Caches
  import opened Physics
  import opened Simulation
  import Lifecycle

  class ForceDirected {
    const graph: Graph
    const stiffness: real
    const repulsion: real
    const damping: real
    const minEnergyThreshold: real
    /** Where the `k`-th Point is created (`Vector.random()` in the source). */
    const initial: nat -> Vector
    /** `Math.sqrt`. */
    const sqrt: real -> real

    var points: seq<Point>
    var nodePoints: map<Id, nat>
    var edgeSprings: map<nat, Spring>
    var started: bool
    var stop: bool

    function Cache(): State
      reads this
    {
      State(points, nodePoints, edgeSprings)
    }

    function RunState(): Lifecycle.Run
      reads this
    {
      Lifecycle.Run(started, stop)
    }

    function Constants(): Params
    {
      Params(stiffness, repulsion, damping)
    }

    ghost predicate Valid()
      reads this, graph
    {
      Ok(Cache()) && IsSqrt(sqrt)
    }

    /** `new Layout.ForceDirected(graph, stiffness, repulsion, damping, minEnergyThreshold)`. */
    constructor (graph: Graph, stiffness: real, repulsion: real, damping: real, minEnergyThreshold: Option<real>,
                 initial: nat -> Vector, sqrt: real -> real)
      requires IsSqrt(sqrt)
      ensures Valid() && Cache() == Initial && RunState() == Lifecycle.Idle
      ensures this.graph == graph && Constants() == Params(stiffness, repulsion, damping)
      ensures this.minEnergyThreshold == Lifecycle.Threshold(minEnergyThreshold)
      ensures this.initial == initial && this.sqrt == sqrt
    {
      this.graph := graph;
      this.stiffness := stiffness;
      this.repulsion := repulsion;
      this.damping := damping;
      this.minEnergyThreshold := if minEnergyThreshold.Some? && minEnergyThreshold.value != 0.0 then minEnergyThreshold.value else 0.01;
      this.initial := initial;
      this.sqrt := sqrt;
      points, nodePoints, edgeSprings := [], map[], map[];
      started, stop := false, false;
    }

    /** `point(node)`: the node's Point, created on first use. */
    method Point(node: Node) returns (h: nat)
      requires Valid()
      modifies this`points, this`nodePoints, this`edgeSprings
      ensures Valid() && Cache() == PointOf(old(Cache()), node, initial).0
      ensures h == PointOf(old(Cache()), node, initial).1
    {
      PointOfSpec(Cache(), node, initial);
      if node.id !in nodePoints {
        var mass := if node.data.mass.Some? then node.data.mass.value else 1.0;
        nodePoints := nodePoints[node.id := |points|];
        points := points + [Caches.Point(initial(|points|), mass, Zero, Zero)];
      }
      h := nodePoints[node.id];
    }

    /** The `forEach` scan of `spring`: the Spring cached for the first edge of `es` that has one. */
    method ScanCached(es: seq<Edge>) returns (existing: Option<Spring>)
      ensures existing == FirstCached(es, edgeSprings)
    {
      existing := None;
      var i := 0;
      while i < |es|
        invariant 0 <= i <= |es|
        invariant existing == FirstCached(es[..i], edgeSprings)
      {
        assert es[..i + 1][..i] == es[..i];
        if existing.None? && es[i].id in edgeSprings {
          existing := Some(edgeSprings[es[i].id]);
        }
        i := i + 1;
      }
      WholePrefix(es);
    }

    /** `spring(edge)`: the cached Spring, an inert view over a merged pair, or a new cached Spring. */
    method Spring(edge: Edge) returns (sp: Spring)
      requires Valid()
      modifies this`points, this`nodePoints, this`edgeSprings
      ensures Valid() && Cache() == SpringOf(old(Cache()), graph.Model(), edge, stiffness, initial).0
      ensures sp == SpringOf(old(Cache()), graph.Model(), edge, stiffness, initial).1
    {
      if edge.id in edgeSprings {
        return edgeSprings[edge.id];
      }
      var length := if edge.data.length.Some? then edge.data.length.value else 1.0;
      var from := ScanCached(graph.GetEdges(edge.source, edge.target));
      if from.Some? {
        return Caches.Spring(from.value.point1, from.value.point2, 0.0, 0.0);
      }
      var to := ScanCached(graph.GetEdges(edge.target, edge.source));
      if to.Some? {
        return Caches.Spring(to.value.point2, to.value.point1, 0.0, 0.0);
      }
      NewSpringFrame(Cache(), edge, stiffness, initial);
      var h1 := Point(edge.source);
      var h2 := Point(edge.target);
      sp := Caches.Spring(h1, h2, length, stiffness);
      edgeSprings := edgeSprings[edge.id := sp];
    }

    /**
     * `applyCoulombsLaw`: the node's Points are gathered into scratch arrays,
     * the pair repulsions are summed there, and the sums are written back.
     */
    method ApplyCoulombsLaw()
      requires Valid() && CoulombReady(Cache(), graph.nodes, initial)
      modifies this`points, this`nodePoints, this`edgeSprings
      ensures Valid() && Cache() == Coulomb(old(Cache()), graph.nodes, repulsion, initial)
    {
      ghost var s := Cache();
      var hs, pos, ms, acc := Gather();
      ghost var e := Cache();
      ghost var a0 := acc[..];
      GatheredReady(s, e, graph.nodes, initial, hs[..], pos[..], ms[..], a0);
      Repulse(pos, ms, acc, repulsion);
      RepulsedIsCoulomb(s, e, graph.nodes, repulsion, initial, hs[..], pos[..], ms[..], a0, acc[..]);
      WriteBack(hs, acc);
    }

    /** The first loop of `applyCoulombsLaw`: each node's Point, position, mass and acceleration. */
    method Gather() returns (hs: array<nat>, pos: array<Vector>, ms: array<Mass>, acc: array<Vector>)
      requires Valid()
      modifies this`points, this`nodePoints, this`edgeSprings
      ensures Valid() && Cache() == EnsurePoints(old(Cache()), graph.nodes, initial)
      ensures fresh(hs) && fresh(pos) && fresh(ms) && fresh(acc) && pos != acc
      ensures Gathered(Cache(), graph.nodes, hs[..], pos[..], ms[..], acc[..])
    {
      var nodes := graph.nodes;
      var len := |nodes|;
      hs := new nat[len];
      pos := new Vector[len](_ => Zero);
      ms := new Mass[len](_ => 1.0);
      acc := new Vector[len](_ => Zero);
      var i := 0;
      while i < len
        invariant 0 <= i <= len && Valid()
        invariant Cache() == EnsurePoints(old(Cache()), nodes[..i], initial)
        invariant Gathered(Cache(), nodes[..i], hs[..i], pos[..i], ms[..i], acc[..i])
        invariant fresh(hs) && fresh(pos) && fresh(ms) && fresh(acc)
      {
        PrefixSnoc(nodes, i);
        GatherAt(i, hs, pos, ms, acc);
        i := i + 1;
      }
      WholePrefix(nodes);
      WholePrefix(hs[..]);
      WholePrefix(pos[..]);
      WholePrefix(ms[..]);
      WholePrefix(acc[..]);
    }

    /** One turn of the first loop of `applyCoulombsLaw`: node `i`'s Point is fetched and its data stored. */
    method GatherAt(i: nat, hs: array<nat>, pos: array<Vector>, ms: array<Mass>, acc: array<Vector>)
      requires Valid() && i < |graph.nodes| == hs.Length == pos.Length == ms.Length == acc.Length && pos != acc
      requires Gathered(Cache(), graph.nodes[..i], hs[..i], pos[..i], ms[..i], acc[..i])
      modifies this`points, this`nodePoints, this`edgeSprings, hs, pos, ms, acc
      ensures Valid() && Cache() == PointOf(old(Cache()), graph.nodes[i], initial).0
      ensures Gathered(Cache(), graph.nodes[..i + 1], hs[..i + 1], pos[..i + 1], ms[..i + 1], acc[..i + 1])
    {
      ghost var c := Cache();
      ghost var ghs, gpos, gms, gacc := hs[..i], pos[..i], ms[..i], acc[..i];
      var h := Point(graph.nodes[i]);
      GatherStep(c, Cache(), h, graph.nodes, i, ghs, gpos, gms, gacc, initial);
      var pt := points[h];
      hs[i], pos[i], ms[i], acc[i] := h, pt.p, pt.m, pt.a;
      assert hs[..i + 1] == ghs + [h] && pos[..i + 1] == gpos + [pt.p];
      assert ms[..i + 1] == gms + [pt.m] && acc[..i + 1] == gacc + [pt.a];
    }

    /** The last loop of `applyCoulombsLaw`: each summed acceleration is stored in its Point. */
    method WriteBack(hs: array<nat>, acc: array<Vector>)
      requires hs.Length == acc.Length && InRange(points, hs[..]) && NoDup(hs[..])
      modifies this`points, this`nodePoints, this`edgeSprings
      ensures Cache() == old(Cache()).(points := WrittenBack(old(points), hs[..], acc[..], hs.Length))
    {
      ghost var ps := points;
      var i := 0;
      while i < hs.Length
        invariant 0 <= i <= hs.Length
        invariant Cache() == old(Cache()).(points := WrittenBack(ps, hs[..], acc[..], i))
      {
        WriteBackStep(ps, hs[..], acc[..], i);
        points := points[hs[i] := points[hs[i]].(a := acc[i])];
        i := i + 1;
      }
    }

    /** `eachNode(callback)`, with a callback that replaces the node's Point by `f` of it. */
    method ForEachNode(f: Point -> Point)
      requires Valid()
      modifies this`points, this`nodePoints, this`edgeSprings
      ensures Valid() && Cache() == EachNode(old(Cache()), graph.nodes, f, initial)
    {
      var nodes := graph.nodes;
      var i := 0;
      while i < |nodes|
        invariant 0 <= i <= |nodes| && Valid()
        invariant Cache() == EachNode(old(Cache()), nodes[..i], f, initial)
      {
        EachNodeSnoc(old(Cache()), nodes, i, f, initial);
        StepNode(f, nodes[i]);
        i := i + 1;
      }
      WholePrefix(nodes);
    }

    /** One turn of `eachNode`: the callback applied to the node's Point. */
    method StepNode(f: Point -> Point, node: Node)
      requires Valid()
      modifies this`points, this`nodePoints, this`edgeSprings
      ensures Valid()
      ensures var (s2, h) := PointOf(old(Cache()), node, initial);
        h < |s2.points| && Cache() == s2.(points := s2.points[h := f(s2.points[h])])
    {
      var h := Point(node);
      points := points[h := f(points[h])];
    }

    /** `attractToCentre`. */
    method AttractToCentre()
      requires Valid()
      modifies this`points, this`nodePoints, this`edgeSprings
      ensures Valid() && Cache() == EachNode(old(Cache()), graph.nodes, StepFn(Centre(repulsion), sqrt), initial)
    {
      ForEachNode(StepFn(Centre(repulsion), sqrt));
    }

    /** `updateVelocity(timestep)`. */
    method UpdateVelocity(timestep: real)
      requires Valid()
      modifies this`points, this`nodePoints, this`edgeSprings
      ensures Valid() && Cache() == EachNode(old(Cache()), graph.nodes, StepFn(Velocity(timestep, damping), sqrt), initial)
    {
      ForEachNode(StepFn(Velocity(timestep, damping), sqrt));
    }

    /** `updatePosition(timestep)`. */
    method UpdatePosition(timestep: real)
      requires Valid()
      modifies this`points, this`nodePoints, this`edgeSprings
      ensures Valid() && Cache() == EachNode(old(Cache()), graph.nodes, StepFn(Position(timestep), sqrt), initial)
    {
      ForEachNode(StepFn(Position(timestep), sqrt));
    }

    /** `applyHookesLaw`: each edge's Spring pushes its two end Points. */
    method ApplyHookesLaw()
      requires Valid()
      modifies this`points, this`nodePoints, this`edgeSprings
      ensures Valid() && Cache() == Hooke(old(Cache()), graph.Model(), graph.edges, stiffness, initial, sqrt)
    {
      var edges := graph.edges;
      var i := 0;
      while i < |edges|
        invariant 0 <= i <= |edges| && Valid()
        invariant Cache() == Hooke(old(Cache()), graph.Model(), edges[..i], stiffness, initial, sqrt)
      {
        HookeSnoc(old(Cache()), graph.Model(), edges, i, stiffness, initial, sqrt);
        PushSpring(edges[i]);
        i := i + 1;
      }
      WholePrefix(edges);
    }

    /** One turn of `applyHookesLaw`: the edge's Spring pushes its two end Points. */
    method PushSpring(edge: Edge)
      requires Valid()
      modifies this`points, this`nodePoints, this`edgeSprings
      ensures Valid()
      ensures var (s2, sp) := SpringOf(old(Cache()), graph.Model(), edge, stiffness, initial);
        && sp.point1 < |s2.points| && sp.point2 < |s2.points|
        && Cache() == s2.(points := ApplySpring(s2.points, sp, sqrt))
    {
      SpringOfFrame(Cache(), graph.Model(), edge, stiffness, initial);
      var sp := Spring(edge);
      points := ApplySpring(points, sp, sqrt);
    }

    /** `totalEnergy`: the kinetic energy `0.5 * m * speed * speed` summed over the nodes' Points. */
    method TotalEnergy() returns (energy: real)
      requires Valid()
      modifies this`points, this`nodePoints, this`edgeSprings
      ensures Valid() && Cache() == Energy(old(Cache()), graph.nodes, initial, sqrt).0
      ensures energy == Energy(old(Cache()), graph.nodes, initial, sqrt).1
    {
      var nodes := graph.nodes;
      energy := 0.0;
      var i := 0;
      while i < |nodes|
        invariant 0 <= i <= |nodes| && Valid()
        invariant Cache() == Energy(old(Cache()), nodes[..i], initial, sqrt).0
        invariant energy == Energy(old(Cache()), nodes[..i], initial, sqrt).1
      {
        EnergySnoc(old(Cache()), nodes, i, initial, sqrt);
        var k := NodeEnergy(nodes[i]);
        energy := energy + k;
        i := i + 1;
      }
      WholePrefix(nodes);
    }

    /** One turn of `totalEnergy`: the kinetic energy of the node's Point. */
    method NodeEnergy(node: Node) returns (k: real)
      requires Valid()
      modifies this`points, this`nodePoints, this`edgeSprings
      ensures Valid()
      ensures var (s2, h) := PointOf(old(Cache()), node, initial);
        h < |s2.points| && Cache() == s2 && k == Kinetic(s2.points[h], sqrt)
    {
      var h := Point(node);
      var speed := Magnitude(points[h].v, sqrt);
      k := 0.5 * points[h].m * speed * speed;
    }

    /** `nearest(pos)`: the first node whose Point is closest to `pos`, or None without nodes. */
    method Nearest(pos: Vector) returns (min: Option<Closest>)
      requires Valid()
      modifies this`points, this`nodePoints, this`edgeSprings
      ensures Valid() && Cache() == Simulation.Nearest(old(Cache()), graph.nodes, pos, initial, sqrt).0
      ensures min == Simulation.Nearest(old(Cache()), graph.nodes, pos, initial, sqrt).1
    {
      var nodes := graph.nodes;
      min := None;
      var i := 0;
      while i < |nodes|
        invariant 0 <= i <= |nodes| && Valid()
        invariant Cache() == Simulation.Nearest(old(Cache()), nodes[..i], pos, initial, sqrt).0
        invariant min == Simulation.Nearest(old(Cache()), nodes[..i], pos, initial, sqrt).1
      {
        NearestSnoc(old(Cache()), nodes, i, pos, initial, sqrt);
        var h, distance := NodeDistance(nodes[i], pos);
        if min.None? || distance < min.value.distance {
          min := Some(Closest(nodes[i], h, distance));
        }
        i := i + 1;
      }
      WholePrefix(nodes);
    }

    /** One turn of `nearest`: the node's Point and its distance from `pos`. */
    method NodeDistance(node: Node, pos: Vector) returns (h: nat, distance: real)
      requires Valid()
      modifies this`points, this`nodePoints, this`edgeSprings
      ensures Valid()
      ensures (Cache(), h) == PointOf(old(Cache()), node, initial)
      ensures h < |points| && distance == Distance(points[h], pos, sqrt)
    {
      h := Point(node);
      distance := Magnitude(Subtract(points[h].p, pos), sqrt);
    }

    /** `tick(timestep)`: the five passes in order. */
    method Tick(timestep: real)
      requires Valid() && CoulombReady(Cache(), graph.nodes, initial)
      modifies this`points, this`nodePoints, this`edgeSprings
      ensures Valid() && Cache() == Simulation.Tick(old(Cache()), graph.Model(), Constants(), timestep, initial, sqrt)
    {
      ApplyCoulombsLaw();
      ApplyHookesLaw();
      AttractToCentre();
      UpdateVelocity(timestep);
      UpdatePosition(timestep);
    }

    /** `start`: begins a run unless one is under way; the events are the callbacks it calls. */
    method Start() returns (events: seq<Lifecycle.Event>)
      modifies this`started, this`stop
      ensures RunState() == Lifecycle.Start(old(RunState())).0 && events == Lifecycle.Start(old(RunState())).1
      ensures Cache() == old(Cache())
    {
      if started {
        return [];
      }
      started := true;
      stop := false;
      events := [Lifecycle.RenderStart];
    }

    /** `stop`. */
    method Stop()
      modifies this`stop
      ensures RunState() == Lifecycle.Stop(old(RunState())) && Cache() == old(Cache())
    {
      stop := true;
    }

    /**
     * The `step` callback of `start`: one tick of `FrameTimestep`, `render`,
     * and then the run ends if `stop` is set or the total energy is below the
     * threshold. The source skips `totalEnergy` when `stop` is set; here it is
     * always computed, which changes nothing, because the tick has already
     * created every node's Point.
     */
    method Frame() returns (energy: real, events: seq<Lifecycle.Event>)
      requires Valid() && started && CoulombReady(Cache(), graph.nodes, initial)
      modifies this
      ensures Valid()
      ensures var ticked := Simulation.Tick(old(Cache()), graph.Model(), Constants(), Lifecycle.FrameTimestep, initial, sqrt);
        Cache() == Energy(ticked, graph.nodes, initial, sqrt).0 && energy == Energy(ticked, graph.nodes, initial, sqrt).1
      ensures RunState() == Lifecycle.Frame(old(RunState()), energy, minEnergyThreshold).0
      ensures events == Lifecycle.Frame(old(RunState()), energy, minEnergyThreshold).1
    {
      Tick(Lifecycle.FrameTimestep);
      events := [Lifecycle.Render];
      energy := TotalEnergy();
      if stop || energy < minEnergyThreshold {
        started := false;
        events := events + [Lifecycle.RenderStop];
      }
    }
  }

  /**
   * The double loop of `applyCoulombsLaw` over the scratch arrays: for each
   * `i` and each earlier `j`, the pair's repulsion is added to the
   * acceleration of `j` at once and to that of `i` after the inner loop.
   * Every acceleration gains exactly the row of accelerations `Accels` gives.
   */
  method Repulse(pos: array<Vector>, ms: array<Mass>, acc: array<Vector>, rep: real)
    requires pos.Length == ms.Length == acc.Length && acc != pos && Separated(pos[..])
    modifies acc
    ensures forall k :: 0 <= k < acc.Length ==> acc[k] == Add(old(acc[k]), Accels(pos[..], ms[..], rep)[k])
  {
    ghost var a0, F := acc[..], Forces(pos[..], rep);
    var i := 0;
    while i < pos.Length
      invariant 0 <= i <= pos.Length
      invariant acc[..] == Partial(a0, F, ms[..], i)
    {
      RepulseRow(pos, ms, acc, rep, i, a0, F);
      i := i + 1;
    }
    PartialDone(a0, pos[..], ms[..], rep);
  }

  /** One pass of the outer loop: point `i` against every earlier point. */
  method RepulseRow(pos: array<Vector>, ms: array<Mass>, acc: array<Vector>, rep: real, i: nat,
                    ghost a0: seq<Vector>, ghost F: seq<seq<Vector>>)
    requires pos.Length == ms.Length == acc.Length == |a0| && acc != pos && i < pos.Length
    requires Separated(pos[..]) && F == Forces(pos[..], rep)
    requires acc[..] == Partial(a0, F, ms[..], i)
    modifies acc
    ensures acc[..] == Partial(a0, F, ms[..], i + 1)
  {
    ghost var M := ms[..];
    var x1, m1 := pos[i], ms[i];
    var a1 := Zero;
    var j := 0;
    RowStart(a0, F, M, i);
    while j < i
      invariant 0 <= j <= i
      invariant acc[..] == RowState(a0, F, M, i, j)
      invariant a1 == AccelRow(F, M, i, j)
    {
      PairForces(pos[..], rep, i, j);
      var d := Subtract(x1, pos[j]);
      var factor := Factor(rep, d);
      assert F[j][i] == Multiply(d, -factor) && F[i][j] == Multiply(d, factor);
      RowStep(a0, F, M, i, j);
      acc[j] := Add(acc[j], Divide(Multiply(d, -factor), ms[j]));
      a1 := Add(a1, Divide(Multiply(d, factor), m1));
      j := j + 1;
    }
    RowEnd(a0, F, M, i);
    acc[i] := Add(acc[i], a1);
  }

  /** The acceleration of the Point at each `hs[i]`. */
  function Accelerations(ps: seq<Point>, hs: seq<nat>): (r: seq<Vector>)
    requires InRange(ps, hs)
    ensures |r| == |hs|
  {
    seq(|hs|, i requires 0 <= i < |hs| => ps[hs[i]].a)
  }

  // ----- One more node or edge of a fold -----

  lemma EachNodeSnoc(s: State, nodes: seq<Node>, i: nat, f: Point -> Point, initial: nat -> Vector)
    requires Ok(s) && i < |nodes|
    ensures var s1 := EachNode(s, nodes[..i], f, initial);
      var (s2, h) := PointOf(s1, nodes[i], initial);
      && Ok(s1) && h < |s2.points|
      && EachNode(s, nodes[..i + 1], f, initial) == s2.(points := s2.points[h := f(s2.points[h])])
  {
    PrefixSnoc(nodes, i);
    PointOfSpec(EachNode(s, nodes[..i], f, initial), nodes[i], initial);
  }

  lemma HookeSnoc(s: State, g: GraphValue, edges: seq<Edge>, i: nat, stiffness: real, initial: nat -> Vector, sqrt: real -> real)
    requires Ok(s) && IsSqrt(sqrt) && i < |edges|
    ensures var s1 := Hooke(s, g, edges[..i], stiffness, initial, sqrt);
      var (s2, sp) := SpringOf(s1, g, edges[i], stiffness, initial);
      && Ok(s1) && sp.point1 < |s2.points| && sp.point2 < |s2.points|
      && Hooke(s, g, edges[..i + 1], stiffness, initial, sqrt) == s2.(points := ApplySpring(s2.points, sp, sqrt))
  {
    assert edges[..i + 1][..i] == edges[..i];
    SpringOfFrame(Hooke(s, g, edges[..i], stiffness, initial, sqrt), g, edges[i], stiffness, initial);
  }

  lemma EnergySnoc(s: State, nodes: seq<Node>, i: nat, initial: nat -> Vector, sqrt: real -> real)
    requires Ok(s) && IsSqrt(sqrt) && i < |nodes|
    ensures var (s1, e) := Energy(s, nodes[..i], initial, sqrt);
      var (s2, h) := PointOf(s1, nodes[i], initial);
      && Ok(s1) && h < |s2.points|
      && Energy(s, nodes[..i + 1], initial, sqrt).0 == s2
      && Energy(s, nodes[..i + 1], initial, sqrt).1 == e + Kinetic(s2.points[h], sqrt)
  {
    var pre, all := nodes[..i], nodes[..i + 1];
    assert all[..|all| - 1] == pre && all[|all| - 1] == nodes[i];
    var (s1, e) := Energy(s, pre, initial, sqrt);
    EnsurePointsSpec(s, pre, initial);
    PointOfSpec(s1, nodes[i], initial);
    var (s2, h) := PointOf(s1, nodes[i], initial);
    assert Energy(s, all, initial, sqrt).0 == s2;
    assert Energy(s, all, initial, sqrt).1 == e + Kinetic(s2.points[h], sqrt);
  }

  lemma NearestSnoc(s: State, nodes: seq<Node>, i: nat, pos: Vector, initial: nat -> Vector, sqrt: real -> real)
    requires Ok(s) && IsSqrt(sqrt) && i < |nodes|
    ensures var (s1, best) := Simulation.Nearest(s, nodes[..i], pos, initial, sqrt);
      var (s2, h) := PointOf(s1, nodes[i], initial);
      && Ok(s1) && h < |s2.points|
      && var d := Distance(s2.points[h], pos, sqrt);
      Simulation.Nearest(s, nodes[..i + 1], pos, initial, sqrt)
        == if best.None? || d < best.value.distance then (s2, Some(Closest(nodes[i], h, d))) else (s2, best)
  {
    PrefixSnoc(nodes, i);
    EnsurePointsSpec(s, nodes[..i], initial);
    PointOfSpec(Simulation.Nearest(s, nodes[..i], pos, initial, sqrt).0, nodes[i], initial);
  }

  /** The scratch sequences hold the handle, position, mass and acceleration of each node's Point. */
  ghost predicate Gathered(c: State, nodes: seq<Node>, hs: seq<nat>, pos: seq<Vector>, ms: seq<Mass>, acc: seq<Vector>)
  {
    && HasPoints(c, nodes) && InRange(c.points, Handles(c, nodes))
    && hs == Handles(c, nodes)
    && pos == Positions(c.points, hs) && ms == Masses(c.points, hs) && acc == Accelerations(c.points, hs)
  }

  /** One turn of the gathering loop: the new Point's data are appended to the scratch sequences. */
  lemma GatherStep(c: State, c': State, h: nat, nodes: seq<Node>, i: nat,
                   hs: seq<nat>, pos: seq<Vector>, ms: seq<Mass>, acc: seq<Vector>, initial: nat -> Vector)
    requires Ok(c) && i < |nodes| && (c', h) == PointOf(c, nodes[i], initial)
    requires Gathered(c, nodes[..i], hs, pos, ms, acc)
    ensures h < |c'.points|
    ensures Gathered(c', nodes[..i + 1], hs + [h], pos + [c'.points[h].p], ms + [c'.points[h].m], acc + [c'.points[h].a])
  {
    PointOfSpec(c, nodes[i], initial);
    assert nodes[..i + 1] == nodes[..i] + [nodes[i]];
    forall k | 0 <= k < i ensures Handles(c', nodes[..i + 1])[k] == hs[k] {
      assert nodes[..i][k] in nodes[..i];
    }
    assert Handles(c', nodes[..i + 1]) == hs + [h];
  }

  /** The Points after the write-back loop has stored the first `i` accelerations. */
  ghost function WrittenBack(ps: seq<Point>, hs: seq<nat>, acc: seq<Vector>, i: nat): (r: seq<Point>)
    requires InRange(ps, hs) && |acc| == |hs| && i <= |hs|
    ensures |r| == |ps|
  {
    seq(|ps|, h requires 0 <= h < |ps| => if h in hs[..i] then ps[h].(a := acc[FirstIndex(hs, h)]) else ps[h])
  }

  lemma WriteBackStep(ps: seq<Point>, hs: seq<nat>, acc: seq<Vector>, i: nat)
    requires InRange(ps, hs) && |acc| == |hs| && i < |hs| && NoDup(hs)
    ensures var r := WrittenBack(ps, hs, acc, i);
      r[hs[i] := r[hs[i]].(a := acc[i])] == WrittenBack(ps, hs, acc, i + 1)
  {
    NoDupFirstIndex(hs, i);
    assert hs[..i + 1] == hs[..i] + [hs[i]];
    assert forall k :: 0 <= k < i ==> hs[..i][k] != hs[i];
  }

  /** The gathered positions of a Coulomb-ready state are apart, so no Point is gathered twice. */
  lemma GatheredReady(s: State, e: State, nodes: seq<Node>, initial: nat -> Vector,
                      hs: seq<nat>, pos: seq<Vector>, ms: seq<Mass>, acc: seq<Vector>)
    requires Ok(s) && CoulombReady(s, nodes, initial)
    requires e == EnsurePoints(s, nodes, initial) && Gathered(e, nodes, hs, pos, ms, acc)
    ensures Separated(pos) && InRange(e.points, hs) && NoDup(hs)
  {
    SeparatedDistinct(e.points, hs);
  }

  /** Writing back the summed accelerations yields `Coulomb`. */
  lemma RepulsedIsCoulomb(s: State, e: State, nodes: seq<Node>, rep: real, initial: nat -> Vector,
                          hs: seq<nat>, pos: seq<Vector>, ms: seq<Mass>, a0: seq<Vector>, acc: seq<Vector>)
    requires Ok(s) && CoulombReady(s, nodes, initial)
    requires e == EnsurePoints(s, nodes, initial) && Gathered(e, nodes, hs, pos, ms, a0) && |acc| == |hs|
    requires forall k :: 0 <= k < |acc| ==> acc[k] == Add(a0[k], Accels(pos, ms, rep)[k])
    ensures e.(points := WrittenBack(e.points, hs, acc, |hs|)) == Coulomb(s, nodes, rep, initial)
  {
    WrittenBackAdds(e.points, hs, a0, acc, Accels(pos, ms, rep));
  }

  /**
   * With distinct handles, writing back the accelerations summed on top of
   * the gathered ones gives `AddAccels`.
   */
  lemma WrittenBackAdds(ps: seq<Point>, hs: seq<nat>, a0: seq<Vector>, acc: seq<Vector>, accels: seq<Vector>)
    requires InRange(ps, hs) && |a0| == |acc| == |accels| == |hs|
    requires a0 == Accelerations(ps, hs)
    requires forall k :: 0 <= k < |acc| ==> acc[k] == Add(a0[k], accels[k])
    ensures WrittenBack(ps, hs, acc, |hs|) == AddAccels(ps, hs, accels)
  {
    WholePrefix(hs);
    forall h | 0 <= h < |ps| && h in hs
      ensures WrittenBack(ps, hs, acc, |hs|)[h] == AddAccels(ps, hs, accels)[h]
    {
      var k := FirstIndex(hs, h);
    }
  }

  /** The accelerations after the outer loop has handled the points before `i`. */
  ghost function Partial(a0: seq<Vector>, F: seq<seq<Vector>>, ms: seq<Mass>, i: nat): (r: seq<Vector>)
    requires Square(F, |ms|) && |a0| == |ms| && i <= |ms|
    ensures |r| == |ms|
  {
    seq(|ms|, k requires 0 <= k < |ms| => if k < i then Add(a0[k], AccelRow(F, ms, k, i)) else a0[k])
  }

  /** The accelerations inside pass `i`, once the inner loop has reached `j`. */
  ghost function RowState(a0: seq<Vector>, F: seq<seq<Vector>>, ms: seq<Mass>, i: nat, j: nat): (r: seq<Vector>)
    requires Square(F, |ms|) && |a0| == |ms| && j <= i < |ms|
    ensures |r| == |ms|
  {
    seq(|ms|, k requires 0 <= k < |ms| =>
      if k < j then Add(a0[k], AccelRow(F, ms, k, i + 1))
      else if k < i then Add(a0[k], AccelRow(F, ms, k, i))
      else a0[k])
  }

  lemma RowStart(a0: seq<Vector>, F: seq<seq<Vector>>, ms: seq<Mass>, i: nat)
    requires Square(F, |ms|) && |a0| == |ms| && i < |ms|
    ensures RowState(a0, F, ms, i, 0) == Partial(a0, F, ms, i)
  {
  }

  /** Adding the pair's force to `j` moves the inner loop on by one. */
  lemma RowStep(a0: seq<Vector>, F: seq<seq<Vector>>, ms: seq<Mass>, i: nat, j: nat)
    requires Square(F, |ms|) && |a0| == |ms| && j < i < |ms|
    ensures var r := RowState(a0, F, ms, i, j);
      && AccelRow(F, ms, i, j + 1) == Add(AccelRow(F, ms, i, j), Divide(F[i][j], ms[i]))
      && r[j := Add(r[j], Divide(F[j][i], ms[j]))] == RowState(a0, F, ms, i, j + 1)
  {
    var r := RowState(a0, F, ms, i, j);
    AddAssociative(a0[j], AccelRow(F, ms, j, i), Divide(F[j][i], ms[j]));
    assert r[j := Add(r[j], Divide(F[j][i], ms[j]))][j] == RowState(a0, F, ms, i, j + 1)[j];
  }

  /** Adding the collected row to `i` ends pass `i`. */
  lemma RowEnd(a0: seq<Vector>, F: seq<seq<Vector>>, ms: seq<Mass>, i: nat)
    requires Square(F, |ms|) && |a0| == |ms| && i < |ms|
    ensures var r := RowState(a0, F, ms, i, i);
      && r[i] == a0[i]
      && r[i := Add(r[i], AccelRow(F, ms, i, i))] == Partial(a0, F, ms, i + 1)
  {
  }

  lemma PartialDone(a0: seq<Vector>, pos: seq<Vector>, ms: seq<Mass>, rep: real)
    requires |a0| == |ms| == |pos| && Separated(pos)
    ensures forall k :: 0 <= k < |a0| ==> Partial(a0, Forces(pos, rep), ms, |ms|)[k] == Add(a0[k], Accels(pos, ms, rep)[k])
  {
  }
}
