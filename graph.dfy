/**
 * The graph registry of src/springy3d.js (`Node`, `Edge`, `Graph`): an
 * insertion-ordered node list, an id-to-node dictionary, an edge list
 * de-duplicated by edge id and a two-level adjacency index. `GraphValue` is the
 * registry as a value with each operation as a function; the class `Graph`
 * holds the same fields and updates them in place.
 */
module Graphs {
  import opened Wrappers
  import opened Seqs

  type Id = string

  /** A node mass; the layout divides by it, so it is positive. */
  type Mass = m: real | 0.0 < m witness 1.0

  datatype NodeData = NodeData(nodeLabel: Option<string>, mass: Option<Mass>)

  datatype Node = Node(id: Id, data: NodeData)

  datatype EdgeData = EdgeData(length: Option<real>)

  datatype Edge = Edge(id: nat, source: Node, target: Node, data: EdgeData)

  /** One entry of the edge list given to `loadJSON`: source id, target id, attributes. */
  datatype Triple = Triple(source: Id, target: Id, data: EdgeData)

  /** The argument of `loadJSON`: node names and edge triples. */
  datatype Descriptor = Descriptor(nodes: seq<Id>, edges: seq<Triple>)

  type Adjacency = map<Id, map<Id, seq<Edge>>>

  /** Some edge of `es` carries the edge id `id`. */
  predicate HasId(es: seq<Edge>, id: nat)
  {
    exists k :: 0 <= k < |es| && es[k].id == id
  }

  /** How many edges of `es` carry the edge id `id`. */
  function CountId(es: seq<Edge>, id: nat): nat
  {
    if es == [] then 0
    else CountId(es[..|es| - 1], id) + (if es[|es| - 1].id == id then 1 else 0)
  }

  ghost predicate UniqueIds(es: seq<Edge>)
  {
    forall i, j :: 0 <= i < j < |es| ==> es[i].id != es[j].id
  }

  /** The node ids of `ns`, in order. */
  function Ids(ns: seq<Node>): seq<Id>
  {
    seq(|ns|, i requires 0 <= i < |ns| => ns[i].id)
  }

  /** The node `addNodes` makes of a name: the name is both its id and its label. */
  function LabelledNode(name: Id): Node
  {
    Node(name, NodeData(Some(name), None))
  }

  /** An adjacency list from `a` to `b`: every edge runs from `a` to `b`, no edge id twice. */
  ghost predicate ListValid(es: seq<Edge>, a: Id, b: Id)
  {
    && UniqueIds(es)
    && forall e :: e in es ==> e.source.id == a && e.target.id == b
  }

  datatype GraphValue = GraphValue(
    nodeSet: map<Id, Node>,
    nodes: seq<Node>,
    edges: seq<Edge>,
    adjacency: Adjacency,
    nextEdgeId: nat)
  {
    /** `getEdges`: the edges from `a` to `b`, or none. */
    function GetEdges(a: Id, b: Id): seq<Edge>
    {
      if a in adjacency && b in adjacency[a] then adjacency[a][b] else []
    }

    /** `addNode`: append only a new id; the dictionary always takes the new object. */
    function AddNode(node: Node): GraphValue
    {
      this.(nodes := if node.id in nodeSet then nodes else nodes + [node],
            nodeSet := nodeSet[node.id := node])
    }

    /** `addNodes`: one labelled node per name, in order. */
    function AddNodes(names: seq<Id>): GraphValue
      decreases |names|
    {
      if names == [] then this
      else AddNodes(names[..|names| - 1]).AddNode(LabelledNode(names[|names| - 1]))
    }

    /** `addEdge`: de-duplicate by edge id, both in `edges` and in the adjacency list. */
    function AddEdge(edge: Edge): GraphValue
    {
      var src, tgt := edge.source.id, edge.target.id;
      var inner := if src in adjacency then adjacency[src] else map[];
      var list := if tgt in inner then inner[tgt] else [];
      this.(edges := if HasId(edges, edge.id) then edges else edges + [edge],
            adjacency := adjacency[src := inner[tgt := if HasId(list, edge.id) then list else list + [edge]]])
    }

    /** `newEdge`: the next edge id, then `addEdge`. */
    function NewEdge(source: Node, target: Node, data: EdgeData): (GraphValue, Edge)
    {
      var edge := Edge(nextEdgeId, source, target, data);
      (this.(nextEdgeId := nextEdgeId + 1).AddEdge(edge), edge)
    }

    /** One triple of `addEdges`: the error names the first unknown endpoint id. */
    function AddTriple(t: Triple): (GraphValue, Outcome<Id>)
    {
      if t.source !in nodeSet then (this, Fail(t.source))
      else if t.target !in nodeSet then (this, Fail(t.target))
      else (NewEdge(nodeSet[t.source], nodeSet[t.target], t.data).0, Pass)
    }

    /**
     * `addEdges`: the triples in order, stopping at the first one with an
     * unknown endpoint; the triples before it stay added.
     */
    function AddEdges(ts: seq<Triple>): (GraphValue, Outcome<Id>)
      decreases |ts|
    {
      if ts == [] then (this, Pass)
      else
        var r := AddEdges(ts[..|ts| - 1]);
        if r.1.Fail? then r else r.0.AddTriple(ts[|ts| - 1])
    }

    /** `loadJSON`: the nodes, then the edges. */
    function LoadJSON(json: Descriptor): (GraphValue, Outcome<Id>)
    {
      AddNodes(json.nodes).AddEdges(json.edges)
    }

    /**
     * What every operation keeps: node ids are unique in `nodes` and are exactly
     * the keys of `nodeSet`, each entry under its own id; edge ids are unique in
     * `edges` and in every adjacency list; every list holds only edges between
     * its two keys; every edge of `edges` has its id in its own list.
     */
    ghost predicate Valid()
    {
      && (forall i, j :: 0 <= i < j < |nodes| ==> nodes[i].id != nodes[j].id)
      && (forall id :: id in nodeSet <==> id in Ids(nodes))
      && (forall id :: id in nodeSet ==> nodeSet[id].id == id)
      && UniqueIds(edges)
      && (forall a, b :: a in adjacency && b in adjacency[a] ==> ListValid(adjacency[a][b], a, b))
      && (forall e :: e in edges ==> HasId(GetEdges(e.source.id, e.target.id), e.id))
    }

    /** Every edge id in use is below the counter, as when edges come only from `newEdge`. */
    ghost predicate Numbered()
    {
      && (forall e :: e in edges ==> e.id < nextEdgeId)
      && (forall a, b, e :: a in adjacency && b in adjacency[a] && e in adjacency[a][b] ==> e.id < nextEdgeId)
    }

    /** Every edge runs between registered nodes. */
    ghost predicate EndpointsKnown()
    {
      forall e :: e in edges ==> e.source.id in nodeSet && e.target.id in nodeSet
    }
  }

  const Empty: GraphValue := GraphValue(map[], [], [], map[], 0)

  /** The triple's endpoints are both registered. */
  predicate Known(nodeSet: map<Id, Node>, t: Triple)
  {
    t.source in nodeSet && t.target in nodeSet
  }

  /** The edge `addEdges` makes of the `k`-th triple when all go through. */
  function EdgeOf(g: GraphValue, ts: seq<Triple>, k: nat): Edge
    requires k < |ts| && Known(g.nodeSet, ts[k])
  {
    Edge(g.nextEdgeId + k, g.nodeSet[ts[k].source], g.nodeSet[ts[k].target], ts[k].data)
  }

  // ----- Lemmas -----

  lemma {:induction false} CountIdUnique(es: seq<Edge>, id: nat)
    requires UniqueIds(es)
    ensures HasId(es, id) ==> CountId(es, id) == 1
    ensures !HasId(es, id) ==> CountId(es, id) == 0
  {
    if es != [] {
      var init := es[..|es| - 1];
      CountIdUnique(init, id);
      if es[|es| - 1].id == id {
        assert !HasId(init, id);
      } else if HasId(es, id) {
        var k :| 0 <= k < |es| && es[k].id == id;
        assert init[k].id == id;
      }
    }
  }

  lemma HasIdAppend(es: seq<Edge>, e: Edge, id: nat)
    ensures HasId(es + [e], id) <==> HasId(es, id) || e.id == id
  {
    if HasId(es + [e], id) && e.id != id {
      var k :| 0 <= k < |es + [e]| && (es + [e])[k].id == id;
      assert es[k].id == id;
    }
    if HasId(es, id) {
      var k :| 0 <= k < |es| && es[k].id == id;
      assert (es + [e])[k].id == id;
    }
    assert (es + [e])[|es|] == e;
  }

  lemma HasIdPrefix(es: seq<Edge>, es': seq<Edge>, id: nat)
    requires es <= es' && HasId(es, id)
    ensures HasId(es', id)
  {
    var k :| 0 <= k < |es| && es[k].id == id;
    assert es'[k] == es[k];
  }

  /** Appending an edge with a new id keeps edge ids unique. */
  lemma UniqueAppend(es: seq<Edge>, e: Edge)
    requires UniqueIds(es) && !HasId(es, e.id)
    ensures UniqueIds(es + [e])
  {
    var es' := es + [e];
    forall i, j | 0 <= i < j < |es'| ensures es'[i].id != es'[j].id {
      if j == |es| {
        assert es'[i] == es[i];
      }
    }
  }

  /**
   * `addNode` appends to `nodes` only when the id is new, so node ids stay
   * unique; afterwards the dictionary maps the id to exactly the node passed in,
   * and no other entry and no edge changes.
   */
  lemma AddNodeSpec(g: GraphValue, node: Node)
    requires g.Valid()
    ensures var g' := g.AddNode(node);
      && g'.Valid()
      && (node.id in g.nodeSet ==> g'.nodes == g.nodes)
      && (node.id !in g.nodeSet ==> g'.nodes == g.nodes + [node])
      && g'.nodeSet[node.id] == node
      && g'.nodeSet.Keys == g.nodeSet.Keys + {node.id}
      && (forall id :: id in g.nodeSet && id != node.id ==> g'.nodeSet[id] == g.nodeSet[id])
      && g'.edges == g.edges && g'.adjacency == g.adjacency && g'.nextEdgeId == g.nextEdgeId
  {
    var g' := g.AddNode(node);
    if node.id !in g.nodeSet {
      assert Ids(g'.nodes) == Ids(g.nodes) + [node.id];
      forall i, j | 0 <= i < j < |g'.nodes| ensures g'.nodes[i].id != g'.nodes[j].id {
        if j == |g.nodes| {
          assert Ids(g.nodes)[i] == g.nodes[i].id;
        }
      }
    }
  }

  /** Adding the same node twice is the same as adding it once. */
  lemma AddNodeIdempotent(g: GraphValue, node: Node)
    ensures g.AddNode(node).AddNode(node) == g.AddNode(node)
  {
  }

  /** `a` has an adjacency entry for `b`. */
  ghost predicate HasList(adj: Adjacency, a: Id, b: Id)
  {
    a in adj && b in adj[a]
  }

  /**
   * The adjacency side of `addEdge`: the edge's list then holds its id exactly
   * once and still holds what it held; every other list, present or absent,
   * is as it was.
   */
  lemma AddEdgeLists(g: GraphValue, edge: Edge)
    requires ListValid(g.GetEdges(edge.source.id, edge.target.id), edge.source.id, edge.target.id)
    ensures var g' := g.AddEdge(edge);
      var src, tgt := edge.source.id, edge.target.id;
      && HasList(g'.adjacency, src, tgt)
      && ListValid(g'.GetEdges(src, tgt), src, tgt)
      && CountId(g'.GetEdges(src, tgt), edge.id) == 1
      && g.GetEdges(src, tgt) <= g'.GetEdges(src, tgt)
      && (forall a, b :: a != src || b != tgt ==>
            (HasList(g'.adjacency, a, b) <==> HasList(g.adjacency, a, b)) && g'.GetEdges(a, b) == g.GetEdges(a, b))
  {
    AddEdgeOwnList(g, edge);
    AddEdgeOtherLists(g, edge);
  }

  /** The list `addEdge` appends to. */
  lemma AddEdgeOwnList(g: GraphValue, edge: Edge)
    requires ListValid(g.GetEdges(edge.source.id, edge.target.id), edge.source.id, edge.target.id)
    ensures var g' := g.AddEdge(edge);
      var src, tgt := edge.source.id, edge.target.id;
      && HasList(g'.adjacency, src, tgt)
      && ListValid(g'.GetEdges(src, tgt), src, tgt)
      && CountId(g'.GetEdges(src, tgt), edge.id) == 1
      && g.GetEdges(src, tgt) <= g'.GetEdges(src, tgt)
  {
    var g' := g.AddEdge(edge);
    var src, tgt := edge.source.id, edge.target.id;
    var list := g.GetEdges(src, tgt);
    var list' := if HasId(list, edge.id) then list else list + [edge];
    assert g'.GetEdges(src, tgt) == list';
    if !HasId(list, edge.id) {
      UniqueAppend(list, edge);
      HasIdAppend(list, edge, edge.id);
    }
    assert ListValid(list', src, tgt);
    CountIdUnique(list', edge.id);
  }

  /** Every list but the one `addEdge` appends to is as it was. */
  lemma AddEdgeOtherLists(g: GraphValue, edge: Edge)
    ensures var g' := g.AddEdge(edge);
      var src, tgt := edge.source.id, edge.target.id;
      forall a, b :: a != src || b != tgt ==>
        (HasList(g'.adjacency, a, b) <==> HasList(g.adjacency, a, b)) && g'.GetEdges(a, b) == g.GetEdges(a, b)
  {
    var g' := g.AddEdge(edge);
    var src, tgt := edge.source.id, edge.target.id;
    forall a, b | a != src || b != tgt
      ensures (HasList(g'.adjacency, a, b) <==> HasList(g.adjacency, a, b)) && g'.GetEdges(a, b) == g.GetEdges(a, b)
    {
      if a != src {
        assert a in g'.adjacency <==> a in g.adjacency;
      }
    }
  }

  /**
   * `addEdge` de-duplicates by edge id: `edges` gains the edge only when no
   * edge has its id; the registry's invariants hold afterwards.
   */
  lemma AddEdgeSpec(g: GraphValue, edge: Edge)
    requires g.Valid()
    ensures var g' := g.AddEdge(edge);
      && g'.Valid()
      && (HasId(g.edges, edge.id) ==> g'.edges == g.edges)
      && (!HasId(g.edges, edge.id) ==> g'.edges == g.edges + [edge])
      && g'.nodes == g.nodes && g'.nodeSet == g.nodeSet && g'.nextEdgeId == g.nextEdgeId
  {
    var g' := g.AddEdge(edge);
    var src, tgt := edge.source.id, edge.target.id;
    assert ListValid(g.GetEdges(src, tgt), src, tgt) by {
      if HasList(g.adjacency, src, tgt) {
        assert ListValid(g.adjacency[src][tgt], src, tgt);
      }
    }
    AddEdgeLists(g, edge);
    if !HasId(g.edges, edge.id) {
      UniqueAppend(g.edges, edge);
    }
    forall a, b | a in g'.adjacency && b in g'.adjacency[a]
      ensures ListValid(g'.adjacency[a][b], a, b)
    {
      if a != src || b != tgt {
        assert HasList(g.adjacency, a, b);
        assert g'.adjacency[a][b] == g.GetEdges(a, b);
      }
    }
    forall e | e in g'.edges ensures HasId(g'.GetEdges(e.source.id, e.target.id), e.id) {
      if e in g.edges {
        assert HasId(g.GetEdges(e.source.id, e.target.id), e.id);
        if e.source.id == src && e.target.id == tgt {
          HasIdPrefix(g.GetEdges(src, tgt), g'.GetEdges(src, tgt), e.id);
        }
      } else {
        CountIdUnique(g'.GetEdges(src, tgt), edge.id);
      }
    }
  }

  /** Adding the same edge twice is the same as adding it once. */
  lemma AddEdgeIdempotent(g: GraphValue, edge: Edge)
    ensures g.AddEdge(edge).AddEdge(edge) == g.AddEdge(edge)
  {
    var g' := g.AddEdge(edge);
    var src, tgt := edge.source.id, edge.target.id;
    var list := g.GetEdges(src, tgt);
    if !HasId(list, edge.id) {
      HasIdAppend(list, edge, edge.id);
    }
    if !HasId(g.edges, edge.id) {
      HasIdAppend(g.edges, edge, edge.id);
    }
    var list' := g'.adjacency[src][tgt];
    assert HasId(list', edge.id);
    assert HasId(g'.edges, edge.id);
    MapSame(g'.adjacency[src], tgt);
    MapSame(g'.adjacency, src);
  }

  /** Storing a key's own value back leaves a map as it is. */
  lemma MapSame<K, V>(m: map<K, V>, k: K)
    requires k in m
    ensures m[k := m[k]] == m
  {
  }

  /**
   * `newEdge` on a registry whose ids are below the counter: the edge gets the
   * counter's value, is appended to `edges`, and the counter moves on by one.
   */
  lemma NewEdgeSpec(g: GraphValue, source: Node, target: Node, data: EdgeData)
    requires g.Valid() && g.Numbered()
    ensures var (g', e) := g.NewEdge(source, target, data);
      && e == Edge(g.nextEdgeId, source, target, data)
      && g'.edges == g.edges + [e]
      && g'.nextEdgeId == g.nextEdgeId + 1
      && g'.nodes == g.nodes && g'.nodeSet == g.nodeSet
      && g'.Valid() && g'.Numbered()
  {
    var e := Edge(g.nextEdgeId, source, target, data);
    var g1 := g.(nextEdgeId := g.nextEdgeId + 1);
    assert g1.Valid();
    AddEdgeSpec(g1, e);
    assert !HasId(g.edges, e.id);
    NewEdgeNumbered(g, e);
  }

  lemma NewEdgeNumbered(g: GraphValue, e: Edge)
    requires g.Numbered() && e.id == g.nextEdgeId
    ensures g.(nextEdgeId := g.nextEdgeId + 1).AddEdge(e).Numbered()
  {
    var g1 := g.(nextEdgeId := g.nextEdgeId + 1);
    var g' := g1.AddEdge(e);
    var src, tgt := e.source.id, e.target.id;
    forall a, b, x | a in g'.adjacency && b in g'.adjacency[a] && x in g'.adjacency[a][b]
      ensures x.id < g'.nextEdgeId
    {
      if a == src && b == tgt {
        var list := g.GetEdges(a, b);
        assert g'.adjacency[a][b] == list || g'.adjacency[a][b] == list + [e];
        assert x in list || x == e;
        if x in list {
          assert HasList(g.adjacency, a, b);
        }
      } else if a == src {
        assert g'.adjacency[a] == (if src in g.adjacency then g.adjacency[src] else map[])[tgt := g'.adjacency[src][tgt]];
        assert HasList(g.adjacency, a, b);
        assert x in g.adjacency[a][b];
      } else {
        assert HasList(g.adjacency, a, b);
        assert x in g.adjacency[a][b];
      }
    }
  }

  /** One triple keeps every invariant and the node registry. */
  lemma AddTripleSpec(g: GraphValue, t: Triple)
    requires g.Valid() && g.Numbered() && g.EndpointsKnown()
    ensures var (g', o) := g.AddTriple(t);
      && g'.Valid() && g'.Numbered() && g'.EndpointsKnown()
      && g'.nodes == g.nodes && g'.nodeSet == g.nodeSet
      && (o == Pass <==> Known(g.nodeSet, t))
      && (o == Pass ==> g'.edges == g.edges + [EdgeOf(g, [t], 0)] && g'.nextEdgeId == g.nextEdgeId + 1)
      && (o != Pass ==> g' == g && o == Fail(if t.source !in g.nodeSet then t.source else t.target))
  {
    if Known(g.nodeSet, t) {
      NewEdgeSpec(g, g.nodeSet[t.source], g.nodeSet[t.target], t.data);
    }
  }

  /**
   * `addEdges` with every endpoint registered: each triple becomes one edge,
   * the `k`-th with id `nextEdgeId + k`, appended in order, and the counter
   * moves on by the number of triples. Edge ids are therefore distinct and
   * increasing.
   */
  lemma {:induction false} AddEdgesAllKnown(g: GraphValue, ts: seq<Triple>)
    requires g.Valid() && g.Numbered() && g.EndpointsKnown()
    requires forall t :: t in ts ==> Known(g.nodeSet, t)
    ensures var (g', o) := g.AddEdges(ts);
      && o == Pass
      && g'.Valid() && g'.Numbered() && g'.EndpointsKnown()
      && g'.nodes == g.nodes && g'.nodeSet == g.nodeSet
      && |g'.edges| == |g.edges| + |ts|
      && g'.edges[..|g.edges|] == g.edges
      && (forall k :: 0 <= k < |ts| ==> g'.edges[|g.edges| + k] == EdgeOf(g, ts, k))
      && g'.nextEdgeId == g.nextEdgeId + |ts|
    decreases |ts|
  {
    if ts != [] {
      var init, t := ts[..|ts| - 1], ts[|ts| - 1];
      AddEdgesAllKnown(g, init);
      var g1 := g.AddEdges(init).0;
      AddTripleSpec(g1, t);
      var g' := g1.AddTriple(t).0;
      assert EdgeOf(g1, [t], 0) == EdgeOf(g, ts, |init|);
      AppendedEdges(g, init, ts, g1.edges, g'.edges);
    }
  }

  /** One more triple's edge after those of the triples before it. */
  lemma AppendedEdges(g: GraphValue, init: seq<Triple>, ts: seq<Triple>, e1: seq<Edge>, e2: seq<Edge>)
    requires ts != [] && init == ts[..|ts| - 1] && forall t :: t in ts ==> Known(g.nodeSet, t)
    requires |e1| == |g.edges| + |init|
    requires forall k :: 0 <= k < |init| ==> e1[|g.edges| + k] == EdgeOf(g, init, k)
    requires e2 == e1 + [EdgeOf(g, ts, |ts| - 1)]
    ensures forall k :: 0 <= k < |ts| ==> e2[|g.edges| + k] == EdgeOf(g, ts, k)
  {
    forall k | 0 <= k < |ts| ensures e2[|g.edges| + k] == EdgeOf(g, ts, k) {
      if k < |init| {
        assert e2[|g.edges| + k] == e1[|g.edges| + k];
        assert init[k] == ts[k];
        assert EdgeOf(g, init, k) == EdgeOf(g, ts, k);
      }
    }
  }

  /** The index of the first triple with an unknown endpoint, or `|ts|` when there is none. */
  function FirstUnknown(nodeSet: map<Id, Node>, ts: seq<Triple>): (k: nat)
    ensures k <= |ts|
    ensures forall i :: 0 <= i < k ==> Known(nodeSet, ts[i])
    ensures k < |ts| ==> !Known(nodeSet, ts[k])
    decreases |ts|
  {
    if ts == [] then 0
    else
      var k := FirstUnknown(nodeSet, ts[..|ts| - 1]);
      if k < |ts| - 1 || !Known(nodeSet, ts[|ts| - 1]) then k else |ts|
  }

  /** `addEdges` never touches the node registry. */
  lemma {:induction false} AddEdgesKeepsNodes(g: GraphValue, ts: seq<Triple>)
    ensures g.AddEdges(ts).0.nodeSet == g.nodeSet && g.AddEdges(ts).0.nodes == g.nodes
    decreases |ts|
  {
    if ts != [] {
      AddEdgesKeepsNodes(g, ts[..|ts| - 1]);
    }
  }

  /**
   * `addEdges` succeeds exactly when every triple has known endpoints. When the
   * `k`-th triple is the first without, it reports that triple's first unknown
   * id, and the registry is what the triples before it made of it.
   */
  lemma {:induction false} AddEdgesOutcome(g: GraphValue, ts: seq<Triple>)
    ensures var (g', o) := g.AddEdges(ts);
      var k := FirstUnknown(g.nodeSet, ts);
      && (o == Pass <==> k == |ts|)
      && (k < |ts| ==>
            && o == Fail(if ts[k].source !in g.nodeSet then ts[k].source else ts[k].target)
            && g' == g.AddEdges(ts[..k]).0)
    decreases |ts|
  {
    if ts != [] {
      var init, t := ts[..|ts| - 1], ts[|ts| - 1];
      AddEdgesOutcome(g, init);
      AddEdgesKeepsNodes(g, init);
      var k := FirstUnknown(g.nodeSet, init);
      if k < |init| {
        assert init[..k] == ts[..k];
      } else {
        assert ts[..k] == init;
      }
    }
  }

  /**
   * `addNodes` registers the names that were not yet registered, each once, in
   * the order of their first occurrence.
   */
  lemma {:induction false} AddNodesIds(g: GraphValue, names: seq<Id>)
    ensures Ids(g.AddNodes(names).nodes) == Ids(g.nodes) + Fresh(names, g.nodeSet.Keys)
    decreases |names|
  {
    if names != [] {
      var init, x := names[..|names| - 1], names[|names| - 1];
      AddNodesIds(g, init);
      AddNodesKeys(g, init);
      var g1 := g.AddNodes(init);
      AddNodeIds(g1, LabelledNode(x));
    }
  }

  /** `addNode` appends the node's id exactly when it was not registered. */
  lemma AddNodeIds(g: GraphValue, node: Node)
    ensures Ids(g.AddNode(node).nodes) == Ids(g.nodes) + if node.id in g.nodeSet then [] else [node.id]
  {
  }

  /** `addNodes` registers exactly the names on top of the registered ids. */
  lemma {:induction false} AddNodesKeys(g: GraphValue, names: seq<Id>)
    ensures forall id :: id in g.AddNodes(names).nodeSet <==> id in g.nodeSet || id in names
    decreases |names|
  {
    if names != [] {
      var init := names[..|names| - 1];
      AddNodesKeys(g, init);
      assert names == init + [names[|names| - 1]];
    }
  }

  /** `addNodes` keeps every invariant and registers every name. */
  lemma {:induction false} AddNodesSpec(g: GraphValue, names: seq<Id>)
    requires g.Valid()
    ensures var g' := g.AddNodes(names);
      && g'.Valid()
      && (forall id :: id in g'.nodeSet <==> id in g.nodeSet || id in names)
      && g'.edges == g.edges && g'.adjacency == g.adjacency && g'.nextEdgeId == g.nextEdgeId
    decreases |names|
  {
    if names != [] {
      var init, x := names[..|names| - 1], names[|names| - 1];
      AddNodesSpec(g, init);
      AddNodeFrame(g.AddNodes(init), LabelledNode(x));
      forall id ensures id in names <==> id in init || id == x {
        assert names == init + [x];
      }
    }
  }

  /** The part of `AddNodeSpec` that `addNodes` needs. */
  lemma AddNodeFrame(g: GraphValue, node: Node)
    requires g.Valid()
    ensures var g' := g.AddNode(node);
      && g'.Valid()
      && g'.nodeSet.Keys == g.nodeSet.Keys + {node.id}
      && g'.edges == g.edges && g'.adjacency == g.adjacency && g'.nextEdgeId == g.nextEdgeId
  {
    AddNodeSpec(g, node);
  }

  /** The empty registry keeps every invariant. */
  lemma EmptySpec()
    ensures Empty.Valid() && Empty.Numbered() && Empty.EndpointsKnown()
  {
    assert Ids(Empty.nodes) == [];
  }

  /** The registry object of the layout: the fields of `GraphValue`, updated in place. */
  class Graph {
    var nodeSet: map<Id, Node>
    var nodes: seq<Node>
    var edges: seq<Edge>
    var adjacency: Adjacency
    var nextEdgeId: nat

    function Model(): GraphValue
      reads this
    {
      GraphValue(nodeSet, nodes, edges, adjacency, nextEdgeId)
    }

    ghost predicate Valid()
      reads this
    {
      Model().Valid()
    }

    /** `new Graph()`; `new Graph(json)` is this followed by `LoadJSON(json)`. */
    constructor ()
      ensures Model() == Empty && Valid()
    {
      nodeSet, nodes, edges, adjacency, nextEdgeId := map[], [], [], map[], 0;
      new;
      EmptySpec();
    }

    method AddNode(node: Node) returns (r: Node)
      requires Valid()
      modifies this
      ensures Valid() && Model() == old(Model()).AddNode(node) && r == node
    {
      AddNodeSpec(Model(), node);
      if node.id !in nodeSet {
        nodes := nodes + [node];
      }
      nodeSet := nodeSet[node.id := node];
      r := node;
    }

    method AddNodes(names: seq<Id>)
      requires Valid()
      modifies this
      ensures Valid() && Model() == old(Model()).AddNodes(names)
    {
      var i := 0;
      while i < |names|
        invariant 0 <= i <= |names|
        invariant Valid() && Model() == old(Model()).AddNodes(names[..i])
      {
        var _ := AddNode(LabelledNode(names[i]));
        assert names[..i + 1][..i] == names[..i];
        i := i + 1;
      }
      WholePrefix(names);
    }

    /** The `forEach` scan of `addEdge`: does some edge of `es` carry `id`? */
    static method ScanForId(es: seq<Edge>, id: nat) returns (found: bool)
      ensures found == HasId(es, id)
    {
      found := false;
      var i := 0;
      while i < |es|
        invariant 0 <= i <= |es|
        invariant found == HasId(es[..i], id)
      {
        HasIdAppend(es[..i], es[i], id);
        assert es[..i + 1] == es[..i] + [es[i]];
        if id == es[i].id {
          found := true;
        }
        i := i + 1;
      }
      WholePrefix(es);
    }

    method AddEdge(edge: Edge) returns (r: Edge)
      requires Valid()
      modifies this
      ensures Valid() && Model() == old(Model()).AddEdge(edge) && r == edge
    {
      ghost var g0 := Model();
      var found := ScanForId(edges, edge.id);
      if !found {
        edges := edges + [edge];
      }
      var src, tgt := edge.source.id, edge.target.id;
      var inner := if src in adjacency then adjacency[src] else map[];
      var list := if tgt in inner then inner[tgt] else [];
      found := ScanForId(list, edge.id);
      if !found {
        list := list + [edge];
      }
      adjacency := adjacency[src := inner[tgt := list]];
      AddEdgeSpec(g0, edge);
      r := edge;
    }

    method NewEdge(source: Node, target: Node, data: EdgeData) returns (edge: Edge)
      requires Valid()
      modifies this
      ensures Valid() && (Model(), edge) == old(Model()).NewEdge(source, target, data)
    {
      ghost var g0 := Model();
      edge := Edge(nextEdgeId, source, target, data);
      nextEdgeId := nextEdgeId + 1;
      CounterKeepsValid(g0, nextEdgeId);
      assert Model() == g0.(nextEdgeId := nextEdgeId);
      edge := AddEdge(edge);
    }

    /** `addEdges`; a thrown `TypeError` is the `Fail` outcome, naming the unknown id. */
    method AddEdges(ts: seq<Triple>) returns (o: Outcome<Id>)
      requires Valid()
      modifies this
      ensures Valid() && (Model(), o) == old(Model()).AddEdges(ts)
    {
      var i := 0;
      while i < |ts|
        invariant 0 <= i <= |ts|
        invariant Valid()
        invariant old(Model()).AddEdges(ts[..i]) == (Model(), Pass)
      {
        var t := ts[i];
        AddEdgesStep(old(Model()), ts, i, Model());
        if t.source !in nodeSet {
          o := Fail(t.source);
          AddEdgesPrefix(old(Model()), ts, i + 1);
          return;
        }
        if t.target !in nodeSet {
          o := Fail(t.target);
          AddEdgesPrefix(old(Model()), ts, i + 1);
          return;
        }
        var _ := NewEdge(nodeSet[t.source], nodeSet[t.target], t.data);
        i := i + 1;
      }
      WholePrefix(ts);
      o := Pass;
    }

    method LoadJSON(json: Descriptor) returns (o: Outcome<Id>)
      requires Valid()
      modifies this
      ensures Valid() && (Model(), o) == old(Model()).LoadJSON(json)
    {
      AddNodes(json.nodes);
      o := AddEdges(json.edges);
    }

    /** `getEdges`: on a valid registry, the edges from `a` to `b`, each id once. */
    function GetEdges(a: Node, b: Node): (r: seq<Edge>)
      reads this
      ensures Valid() ==> ListValid(r, a.id, b.id)
      ensures !HasList(adjacency, a.id, b.id) ==> r == []
    {
      var r := Model().GetEdges(a.id, b.id);
      assert Valid() && HasList(adjacency, a.id, b.id) ==> ListValid(adjacency[a.id][b.id], a.id, b.id);
      r
    }
  }

  /** Validity does not look at the edge counter. */
  lemma CounterKeepsValid(g: GraphValue, n: nat)
    requires g.Valid()
    ensures g.(nextEdgeId := n).Valid()
  {
    var g' := g.(nextEdgeId := n);
    assert forall a, b :: g'.GetEdges(a, b) == g.GetEdges(a, b);
  }

  /** One more triple after a prefix that passed is that triple's `AddTriple`. */
  lemma AddEdgesStep(g: GraphValue, ts: seq<Triple>, i: nat, cur: GraphValue)
    requires i < |ts| && g.AddEdges(ts[..i]) == (cur, Pass)
    ensures g.AddEdges(ts[..i + 1]) == cur.AddTriple(ts[i])
  {
    assert ts[..i + 1][..i] == ts[..i];
  }

  /** Once a prefix of the triples fails, the later triples are not looked at. */
  lemma {:induction false} AddEdgesPrefix(g: GraphValue, ts: seq<Triple>, k: nat)
    requires k <= |ts| && g.AddEdges(ts[..k]).1.Fail?
    ensures g.AddEdges(ts) == g.AddEdges(ts[..k])
    decreases |ts| - k
  {
    if k < |ts| {
      assert ts[..k + 1][..k] == ts[..k];
      AddEdgesPrefix(g, ts, k + 1);
    } else {
      assert ts[..k] == ts;
    }
  }
}
