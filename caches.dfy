/**
 * The memoised caches of `Layout.ForceDirected` in src/springy3d.js: one Point
 * per node id (`point`) and one Spring per edge id (`spring`), where only the
 * first edge between two nodes gets a real, cached spring and later edges
 * between the same two nodes get an inert view of it.
 *
 * Points are held in an arena `points` and named by their index, so that a
 * Spring can share the Points of its two nodes the way the object references of
 * the source do: `nodePoints` maps a node id to its index, and a Spring holds
 * two indices.
 */
module Caches {
  import opened Wrappers
  import opened Vectors
  import opened Graphs

  /** `Layout.ForceDirected.Point`: position, mass, velocity, acceleration. */
  datatype Point = Point(p: Vector, m: Mass, v: Vector, a: Vector)

  /** `Layout.ForceDirected.Spring`: the indices of its two Points, rest length and stiffness. */
  datatype Spring = Spring(point1: nat, point2: nat, length: real, k: real)

  datatype State = State(points: seq<Point>, nodePoints: map<Id, nat>, edgeSprings: map<nat, Spring>)

  const Initial: State := State([], map[], map[])

  /** A fresh Point at rest. */
  function NewPoint(position: Vector, mass: Mass): Point
  {
    Point(position, mass, Zero, Zero)
  }

  /** The node's `data.mass`, or 1.0. */
  function MassOf(node: Node): Mass
  {
    node.data.mass.GetOr(1.0)
  }

  /** The edge's `data.length`, or 1.0. */
  function LengthOf(edge: Edge): real
  {
    edge.data.length.GetOr(1.0)
  }

  /**
   * The arena is consistent: node and spring indices point into it, and no two
   * node ids share a Point.
   */
  ghost predicate Ok(s: State)
  {
    && (forall id :: id in s.nodePoints ==> s.nodePoints[id] < |s.points|)
    && (forall a, b :: a in s.nodePoints && b in s.nodePoints && a != b ==> s.nodePoints[a] != s.nodePoints[b])
    && (forall id :: id in s.edgeSprings ==> s.edgeSprings[id].point1 < |s.points| && s.edgeSprings[id].point2 < |s.points|)
  }

  /**
   * `point(node)`: the node's cached Point, or a new one at the `k`-th initial
   * position (`k` the number of Points made so far) with the node's mass.
   */
  function PointOf(s: State, node: Node, initial: nat -> Vector): (State, nat)
  {
    if node.id in s.nodePoints then (s, s.nodePoints[node.id])
    else
      var h := |s.points|;
      (s.(points := s.points + [NewPoint(initial(h), MassOf(node))], nodePoints := s.nodePoints[node.id := h]), h)
  }

  /** `point` for each node in turn, as the `eachNode` loops do. */
  function EnsurePoints(s: State, nodes: seq<Node>, initial: nat -> Vector): State
    decreases |nodes|
  {
    if nodes == [] then s
    else PointOf(EnsurePoints(s, nodes[..|nodes| - 1], initial), nodes[|nodes| - 1], initial).0
  }

  /** Every node has a Point. */
  ghost predicate HasPoints(s: State, nodes: seq<Node>)
  {
    forall n :: n in nodes ==> n.id in s.nodePoints
  }

  /** The Point indices of `nodes`, in order. */
  function Handles(s: State, nodes: seq<Node>): (hs: seq<nat>)
    requires HasPoints(s, nodes)
    ensures |hs| == |nodes|
  {
    seq(|nodes|, i requires 0 <= i < |nodes| => s.nodePoints[nodes[i].id])
  }

  /** The cached Spring of the first edge of `es` that has one, as the `forEach` scans of `spring` find it. */
  function FirstCached(es: seq<Edge>, springs: map<nat, Spring>): Option<Spring>
    decreases |es|
  {
    if es == [] then None
    else
      var r := FirstCached(es[..|es| - 1], springs);
      if r.Some? then r
      else if es[|es| - 1].id in springs then Some(springs[es[|es| - 1].id])
      else None
  }

  /**
   * `spring(edge)`: the cached Spring; else an inert view (length 0, stiffness 0)
   * over the Points of a Spring already cached for an edge from the same
   * source to the same target, or reversed over one for an edge the other way
   * round; else a new cached Spring between the Points of the two endpoints.
   */
  function SpringOf(s: State, g: GraphValue, edge: Edge, stiffness: real, initial: nat -> Vector): (State, Spring)
  {
    if edge.id in s.edgeSprings then (s, s.edgeSprings[edge.id])
    else
      var from := FirstCached(g.GetEdges(edge.source.id, edge.target.id), s.edgeSprings);
      if from.Some? then (s, Spring(from.value.point1, from.value.point2, 0.0, 0.0))
      else
        var to := FirstCached(g.GetEdges(edge.target.id, edge.source.id), s.edgeSprings);
        if to.Some? then (s, Spring(to.value.point2, to.value.point1, 0.0, 0.0))
        else
          var (s1, h1) := PointOf(s, edge.source, initial);
          var (s2, h2) := PointOf(s1, edge.target, initial);
          var spring := Spring(h1, h2, LengthOf(edge), stiffness);
          (s2.(edgeSprings := s2.edgeSprings[edge.id := spring]), spring)
  }

  /** Two Springs join the same two Points, in either direction. */
  predicate SamePair(a: Spring, b: Spring)
  {
    || (a.point1 == b.point1 && a.point2 == b.point2)
    || (a.point1 == b.point2 && a.point2 == b.point1)
  }

  /** At most one cached Spring per unordered pair of Points. */
  ghost predicate Merged(s: State)
  {
    forall i, j :: i in s.edgeSprings && j in s.edgeSprings && i != j ==> !SamePair(s.edgeSprings[i], s.edgeSprings[j])
  }

  /**
   * Every cached Spring belongs to an edge listed in the graph's adjacency from
   * the node of its first Point to the node of its second.
   */
  ghost predicate Faithful(s: State, g: GraphValue)
  {
    forall id :: id in s.edgeSprings ==> SpringListed(s, g, id)
  }

  ghost predicate SpringListed(s: State, g: GraphValue, id: nat)
    requires id in s.edgeSprings
  {
    exists a, b :: a in s.nodePoints && b in s.nodePoints
      && s.edgeSprings[id].point1 == s.nodePoints[a]
      && s.edgeSprings[id].point2 == s.nodePoints[b]
      && HasId(g.GetEdges(a, b), id)
  }

  // ----- Points -----

  /** Validity depends on the Points only through their number. */
  lemma OkKeepsLength(s: State, ps: seq<Point>)
    requires Ok(s) && |ps| == |s.points|
    ensures Ok(s.(points := ps))
  {
  }

  /**
   * `point` makes a Point only on the first access for an id, with the node's
   * mass (1.0 by default) and zero velocity and acceleration; it touches no
   * other Point and no Spring.
   */
  lemma PointOfSpec(s: State, node: Node, initial: nat -> Vector)
    requires Ok(s)
    ensures var (s', h) := PointOf(s, node, initial);
      && Ok(s')
      && h < |s'.points| && node.id in s'.nodePoints && s'.nodePoints[node.id] == h
      && (node.id in s.nodePoints ==> s' == s)
      && (node.id !in s.nodePoints ==>
            && h == |s.points|
            && s'.points == s.points + [NewPoint(initial(h), MassOf(node))]
            && s'.points[h].m == MassOf(node) && s'.points[h].v == Zero && s'.points[h].a == Zero)
      && s.points <= s'.points
      && (forall id :: id in s.nodePoints ==> id in s'.nodePoints && s'.nodePoints[id] == s.nodePoints[id])
      && (forall id :: id in s'.nodePoints ==> id in s.nodePoints || id == node.id)
      && s'.edgeSprings == s.edgeSprings
  {
  }

  /** Every later `point` call for the same id returns the same Point and changes nothing. */
  lemma PointOfCached(s: State, node: Node, other: Node, initial: nat -> Vector)
    requires other.id == node.id
    ensures var (s', h) := PointOf(s, node, initial);
      PointOf(s', other, initial) == (s', h)
  {
  }

  /**
   * After `point` on every node, every node has a Point; the Points that
   * existed are unchanged, new ones are only appended, and no Spring changes.
   */
  lemma {:induction false} EnsurePointsSpec(s: State, nodes: seq<Node>, initial: nat -> Vector)
    requires Ok(s)
    ensures var s' := EnsurePoints(s, nodes, initial);
      && Ok(s') && HasPoints(s', nodes)
      && s.points <= s'.points
      && (forall id :: id in s.nodePoints ==> id in s'.nodePoints && s'.nodePoints[id] == s.nodePoints[id])
      && (forall id :: id in s'.nodePoints ==> id in s.nodePoints || id in Ids(nodes))
      && s'.edgeSprings == s.edgeSprings
    decreases |nodes|
  {
    if nodes != [] {
      var init, n := nodes[..|nodes| - 1], nodes[|nodes| - 1];
      EnsurePointsSpec(s, init, initial);
      var s1 := EnsurePoints(s, init, initial);
      PointOfSpec(s1, n, initial);
      var s' := EnsurePoints(s, nodes, initial);
      forall x | x in nodes ensures x.id in s'.nodePoints {
        if x != n {
          assert x in init;
        }
      }
      forall id | id in s'.nodePoints ensures id in s.nodePoints || id in Ids(nodes) {
        if id !in s.nodePoints {
          if id == n.id {
            assert Ids(nodes)[|nodes| - 1] == id;
          } else {
            assert id in Ids(init);
            var k :| 0 <= k < |init| && Ids(init)[k] == id;
            assert Ids(nodes)[k] == id;
          }
        }
      }
    }
  }

  /** Nodes with distinct ids have distinct Points. */
  lemma HandlesDistinct(s: State, nodes: seq<Node>)
    requires Ok(s) && HasPoints(s, nodes)
    requires forall i, j :: 0 <= i < j < |nodes| ==> nodes[i].id != nodes[j].id
    ensures var hs := Handles(s, nodes);
      && (forall i, j :: 0 <= i < j < |hs| ==> hs[i] != hs[j])
      && (forall i :: 0 <= i < |hs| ==> hs[i] < |s.points|)
  {
    var hs := Handles(s, nodes);
    forall i | 0 <= i < |hs| ensures hs[i] < |s.points| {
      assert nodes[i] in nodes;
    }
    forall i, j | 0 <= i < j < |hs| ensures hs[i] != hs[j] {
      assert nodes[i] in nodes && nodes[j] in nodes;
    }
  }

  // ----- Springs -----

  /**
   * `FirstCached` finds nothing exactly when no edge of `es` has a cached
   * Spring, and otherwise the Spring of the first edge that has one.
   */
  lemma {:induction false} FirstCachedSpec(es: seq<Edge>, springs: map<nat, Spring>)
    ensures FirstCached(es, springs).None? <==> forall e :: e in es ==> e.id !in springs
    ensures FirstCached(es, springs).Some? ==>
      exists k :: 0 <= k < |es| && es[k].id in springs && FirstCached(es, springs).value == springs[es[k].id]
        && forall j :: 0 <= j < k ==> es[j].id !in springs
    decreases |es|
  {
    if es != [] {
      var init := es[..|es| - 1];
      FirstCachedSpec(init, springs);
      assert es == init + [es[|es| - 1]];
      if FirstCached(init, springs).Some? {
        var k :| 0 <= k < |init| && init[k].id in springs && FirstCached(init, springs).value == springs[init[k].id]
          && forall j :: 0 <= j < k ==> init[j].id !in springs;
        assert es[k] == init[k];
      }
    }
  }

  /** A listed edge with a cached Spring is found by the scan. */
  lemma FoundWhenListed(es: seq<Edge>, springs: map<nat, Spring>, id: nat)
    requires HasId(es, id) && id in springs
    ensures FirstCached(es, springs).Some?
  {
    FirstCachedSpec(es, springs);
    var k :| 0 <= k < |es| && es[k].id == id;
    assert es[k] in es;
  }

  /**
   * The merging rule of `spring`. A cached Spring is returned as it is. An
   * edge without one gets an uncached Spring of length 0 and stiffness 0 when
   * some edge between the same two nodes, in either direction, already owns a
   * cached Spring, and that Spring joins the same two Points: edges of the
   * same direction are scanned first and their Spring is copied as it is; a
   * Spring of an edge in the reverse direction is copied with its ends
   * swapped, so `point1` stays at the edge's source. Otherwise the
   * edge gets a new cached Spring with its rest length (1.0 by default) and the
   * layout's stiffness.
   */
  lemma SpringOfSpec(s: State, g: GraphValue, edge: Edge, stiffness: real, initial: nat -> Vector)
    requires Ok(s)
    ensures var (s', sp) := SpringOf(s, g, edge, stiffness, initial);
      && Ok(s')
      && (edge.id in s'.edgeSprings ==> s'.edgeSprings[edge.id] == sp)
      && (edge.id in s.edgeSprings ==> s' == s && sp == s.edgeSprings[edge.id])
      && (edge.id !in s'.edgeSprings ==>
            && s' == s && sp.length == 0.0 && sp.k == 0.0
            && exists id :: id in s.edgeSprings && SamePair(sp, s.edgeSprings[id])
                && (HasId(g.GetEdges(edge.source.id, edge.target.id), id) || HasId(g.GetEdges(edge.target.id, edge.source.id), id)))
      && (edge.id !in s.edgeSprings && edge.id in s'.edgeSprings ==>
            && sp.length == LengthOf(edge) && sp.k == stiffness
            && s'.edgeSprings == s.edgeSprings[edge.id := sp]
            && sp.point1 == s'.nodePoints[edge.source.id] && sp.point2 == s'.nodePoints[edge.target.id]
            && FirstCached(g.GetEdges(edge.source.id, edge.target.id), s.edgeSprings).None?
            && FirstCached(g.GetEdges(edge.target.id, edge.source.id), s.edgeSprings).None?)
      && var from := FirstCached(g.GetEdges(edge.source.id, edge.target.id), s.edgeSprings);
         var to := FirstCached(g.GetEdges(edge.target.id, edge.source.id), s.edgeSprings);
         && (edge.id !in s.edgeSprings && from.Some? ==>
               sp == Spring(from.value.point1, from.value.point2, 0.0, 0.0))
         && (edge.id !in s.edgeSprings && from.None? && to.Some? ==>
               sp == Spring(to.value.point2, to.value.point1, 0.0, 0.0))
  {
    var from := g.GetEdges(edge.source.id, edge.target.id);
    var to := g.GetEdges(edge.target.id, edge.source.id);
    if edge.id !in s.edgeSprings {
      if FirstCached(from, s.edgeSprings).Some? {
        FoundIsListed(from, s.edgeSprings);
      } else if FirstCached(to, s.edgeSprings).Some? {
        FoundIsListed(to, s.edgeSprings);
      } else {
        NewSpringFrame(s, edge, stiffness, initial);
      }
    }
  }

  /** A Spring found by the scan is cached for one of the scanned edges. */
  lemma FoundIsListed(es: seq<Edge>, springs: map<nat, Spring>)
    requires FirstCached(es, springs).Some?
    ensures exists id :: id in springs && springs[id] == FirstCached(es, springs).value && HasId(es, id)
  {
    FirstCachedSpec(es, springs);
    var k :| 0 <= k < |es| && es[k].id in springs && FirstCached(es, springs).value == springs[es[k].id]
      && forall j :: 0 <= j < k ==> es[j].id !in springs;
    assert HasId(es, es[k].id);
  }

  /** A Spring found by the scan is one of the cached Springs, so it joins existing Points. */
  lemma {:induction false} FirstCachedBounded(es: seq<Edge>, springs: map<nat, Spring>, n: nat)
    requires forall id :: id in springs ==> springs[id].point1 < n && springs[id].point2 < n
    ensures var r := FirstCached(es, springs); r.Some? ==> r.value.point1 < n && r.value.point2 < n
    decreases |es|
  {
    if es != [] {
      FirstCachedBounded(es[..|es| - 1], springs, n);
    }
  }

  /**
   * `spring` returns a Spring between existing Points, only appends Points,
   * and keeps every cached Point and Spring.
   */
  lemma SpringOfFrame(s: State, g: GraphValue, edge: Edge, stiffness: real, initial: nat -> Vector)
    requires Ok(s)
    ensures var (s', sp) := SpringOf(s, g, edge, stiffness, initial);
      && Ok(s')
      && sp.point1 < |s'.points| && sp.point2 < |s'.points|
      && s.points <= s'.points
      && (forall id :: id in s.nodePoints ==> id in s'.nodePoints && s'.nodePoints[id] == s.nodePoints[id])
      && (forall id :: id in s.edgeSprings ==> id in s'.edgeSprings && s'.edgeSprings[id] == s.edgeSprings[id])
  {
    if edge.id !in s.edgeSprings {
      FirstCachedBounded(g.GetEdges(edge.source.id, edge.target.id), s.edgeSprings, |s.points|);
      FirstCachedBounded(g.GetEdges(edge.target.id, edge.source.id), s.edgeSprings, |s.points|);
      var from := FirstCached(g.GetEdges(edge.source.id, edge.target.id), s.edgeSprings);
      var to := FirstCached(g.GetEdges(edge.target.id, edge.source.id), s.edgeSprings);
      if from.None? && to.None? {
        NewSpringFrame(s, edge, stiffness, initial);
      }
    }
  }

  /** `spring`'s new-Spring branch: two `point` calls and one cached Spring between their Points. */
  lemma NewSpringFrame(s: State, edge: Edge, stiffness: real, initial: nat -> Vector)
    requires Ok(s)
    ensures var (s1, h1) := PointOf(s, edge.source, initial);
      var (s2, h2) := PointOf(s1, edge.target, initial);
      var s' := s2.(edgeSprings := s2.edgeSprings[edge.id := Spring(h1, h2, LengthOf(edge), stiffness)]);
      && Ok(s') && h1 < |s'.points| && h2 < |s'.points| && s.points <= s'.points
      && edge.source.id in s'.nodePoints && s'.nodePoints[edge.source.id] == h1
      && edge.target.id in s'.nodePoints && s'.nodePoints[edge.target.id] == h2
      && (forall id :: id in s.nodePoints ==> id in s'.nodePoints && s'.nodePoints[id] == s.nodePoints[id])
      && (edge.id !in s.edgeSprings ==> forall id :: id in s.edgeSprings ==> id in s'.edgeSprings && s'.edgeSprings[id] == s.edgeSprings[id])
  {
    TwoPoints(s, edge.source, edge.target, initial);
  }

  /** Two `point` calls in a row: both nodes have Points, and nothing cached before changes. */
  lemma TwoPoints(s: State, a: Node, b: Node, initial: nat -> Vector)
    requires Ok(s)
    ensures var (s1, h1) := PointOf(s, a, initial);
      var (s2, h2) := PointOf(s1, b, initial);
      && Ok(s2) && h1 < |s2.points| && h2 < |s2.points| && s.points <= s2.points
      && a.id in s2.nodePoints && s2.nodePoints[a.id] == h1
      && b.id in s2.nodePoints && s2.nodePoints[b.id] == h2
      && (forall id :: id in s.nodePoints ==> id in s2.nodePoints && s2.nodePoints[id] == s.nodePoints[id])
      && s2.edgeSprings == s.edgeSprings
  {
    var s1 := PointOf(s, a, initial).0;
    PointOfFrame(s, a, initial);
    PointOfFrame(s1, b, initial);
  }

  /** The part of `PointOfSpec` the Spring lemmas need. */
  lemma PointOfFrame(s: State, node: Node, initial: nat -> Vector)
    requires Ok(s)
    ensures var (s', h) := PointOf(s, node, initial);
      && Ok(s')
      && h < |s'.points| && node.id in s'.nodePoints && s'.nodePoints[node.id] == h
      && s.points <= s'.points
      && (forall id :: id in s.nodePoints ==> id in s'.nodePoints && s'.nodePoints[id] == s.nodePoints[id])
      && s'.edgeSprings == s.edgeSprings
  {
    PointOfSpec(s, node, initial);
  }

  /**
   * `spring` is memoised: asking again for the same edge gives the same Spring
   * and changes nothing.
   */
  lemma SpringOfStable(s: State, g: GraphValue, edge: Edge, stiffness: real, initial: nat -> Vector)
    requires Ok(s)
    ensures var (s', sp) := SpringOf(s, g, edge, stiffness, initial);
      SpringOf(s', g, edge, stiffness, initial) == (s', sp)
  {
    SpringOfSpec(s, g, edge, stiffness, initial);
  }

  /**
   * `spring` keeps at most one cached Spring per unordered pair of Points, and
   * keeps every cached Spring tied to a listed edge, when the edge asked for
   * is listed under its own endpoints.
   */
  lemma SpringOfMerged(s: State, g: GraphValue, edge: Edge, stiffness: real, initial: nat -> Vector)
    requires Ok(s) && Merged(s) && Faithful(s, g)
    requires HasId(g.GetEdges(edge.source.id, edge.target.id), edge.id)
    ensures var s' := SpringOf(s, g, edge, stiffness, initial).0;
      Merged(s') && Faithful(s', g)
  {
    var (s', sp) := SpringOf(s, g, edge, stiffness, initial);
    SpringOfSpec(s, g, edge, stiffness, initial);
    if edge.id !in s.edgeSprings && edge.id in s'.edgeSprings {
      var s1 := PointOf(s, edge.source, initial).0;
      PointOfSpec(s, edge.source, initial);
      PointOfSpec(s1, edge.target, initial);
      var s2 := PointOf(s1, edge.target, initial).0;
      assert s' == s2.(edgeSprings := s2.edgeSprings[edge.id := sp]);
      NewSpringMerged(s, s2, g, edge.source.id, edge.target.id, edge.id, sp);
    }
  }

  /** Caching a Spring for an edge whose node pair has none keeps `Merged` and `Faithful`. */
  lemma NewSpringMerged(s: State, s2: State, g: GraphValue, src: Id, tgt: Id, id: nat, sp: Spring)
    requires Ok(s2) && Merged(s) && Faithful(s, g)
    requires s2.edgeSprings == s.edgeSprings
    requires forall x :: x in s.nodePoints ==> x in s2.nodePoints && s2.nodePoints[x] == s.nodePoints[x]
    requires src in s2.nodePoints && tgt in s2.nodePoints
    requires sp.point1 == s2.nodePoints[src] && sp.point2 == s2.nodePoints[tgt]
    requires FirstCached(g.GetEdges(src, tgt), s.edgeSprings).None?
    requires FirstCached(g.GetEdges(tgt, src), s.edgeSprings).None?
    requires id !in s.edgeSprings && HasId(g.GetEdges(src, tgt), id)
    ensures var s' := s2.(edgeSprings := s2.edgeSprings[id := sp]);
      Merged(s') && Faithful(s', g)
  {
    var s' := s2.(edgeSprings := s2.edgeSprings[id := sp]);
    forall i, j | i in s'.edgeSprings && j in s'.edgeSprings && i != j
      ensures !SamePair(s'.edgeSprings[i], s'.edgeSprings[j])
    {
      if i == id {
        NotSamePairAsNew(s, s2, g, src, tgt, j, sp);
      } else if j == id {
        NotSamePairAsNew(s, s2, g, src, tgt, i, sp);
      } else {
        assert s'.edgeSprings[i] == s.edgeSprings[i] && s'.edgeSprings[j] == s.edgeSprings[j];
      }
    }
    forall j | j in s'.edgeSprings ensures SpringListed(s', g, j) {
      ListedAfterCaching(s, s2, g, src, tgt, id, sp, j);
    }
  }

  lemma ListedAfterCaching(s: State, s2: State, g: GraphValue, src: Id, tgt: Id, id: nat, sp: Spring, j: nat)
    requires Faithful(s, g)
    requires s2.edgeSprings == s.edgeSprings
    requires forall x :: x in s.nodePoints ==> x in s2.nodePoints && s2.nodePoints[x] == s.nodePoints[x]
    requires src in s2.nodePoints && tgt in s2.nodePoints
    requires sp.point1 == s2.nodePoints[src] && sp.point2 == s2.nodePoints[tgt]
    requires HasId(g.GetEdges(src, tgt), id)
    requires j in s2.edgeSprings || j == id
    ensures SpringListed(s2.(edgeSprings := s2.edgeSprings[id := sp]), g, j)
  {
    var s' := s2.(edgeSprings := s2.edgeSprings[id := sp]);
    if j == id {
      assert s'.edgeSprings[j].point1 == s'.nodePoints[src];
      assert s'.edgeSprings[j].point2 == s'.nodePoints[tgt];
    } else {
      assert SpringListed(s, g, j);
      var a, b :| a in s.nodePoints && b in s.nodePoints
        && s.edgeSprings[j].point1 == s.nodePoints[a]
        && s.edgeSprings[j].point2 == s.nodePoints[b]
        && HasId(g.GetEdges(a, b), j);
      assert s'.nodePoints[a] == s.nodePoints[a] && s'.nodePoints[b] == s.nodePoints[b];
    }
  }

  lemma NotSamePairAsNew(s: State, s2: State, g: GraphValue, src: Id, tgt: Id, j: nat, sp: Spring)
    requires Ok(s2) && Faithful(s, g)
    requires forall x :: x in s.nodePoints ==> x in s2.nodePoints && s2.nodePoints[x] == s.nodePoints[x]
    requires src in s2.nodePoints && tgt in s2.nodePoints
    requires sp.point1 == s2.nodePoints[src] && sp.point2 == s2.nodePoints[tgt]
    requires FirstCached(g.GetEdges(src, tgt), s.edgeSprings).None?
    requires FirstCached(g.GetEdges(tgt, src), s.edgeSprings).None?
    requires j in s.edgeSprings
    ensures !SamePair(sp, s.edgeSprings[j])
  {
    assert SpringListed(s, g, j);
    var a, b :| a in s.nodePoints && b in s.nodePoints
      && s.edgeSprings[j].point1 == s.nodePoints[a]
      && s.edgeSprings[j].point2 == s.nodePoints[b]
      && HasId(g.GetEdges(a, b), j);
    assert s2.nodePoints[a] == s.nodePoints[a] && s2.nodePoints[b] == s.nodePoints[b];
    if sp.point1 == s.edgeSprings[j].point1 && sp.point2 == s.edgeSprings[j].point2 {
      assert a == src && b == tgt;
      FoundWhenListed(g.GetEdges(src, tgt), s.edgeSprings, j);
    } else if sp.point1 == s.edgeSprings[j].point2 && sp.point2 == s.edgeSprings[j].point1 {
      assert a == tgt && b == src;
      FoundWhenListed(g.GetEdges(tgt, src), s.edgeSprings, j);
    }
  }
}
