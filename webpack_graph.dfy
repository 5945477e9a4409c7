/**
 * The data side of the `WebpackGraph` component (src/WebpackGraph.js): the
 * translation of a webpack stats object into the node names and edge pairs
 * the graph registry loads, the index tables `handleLayoutUpdate` gives the
 * renderer, and the zoom level the wheel handler and the ± buttons adjust.
 */
module WebpackGraph {
  import opened Wrappers
  import opened Seqs
  import opened Graphs

  // ----- Stats and the tree made of them -----

  /** One entry of a module's `reasons`: `origin` is its `module` field, the module that imports it. */
  datatype Reason = Reason(origin: Id)

  /** One entry of a stats `modules` array. */
  datatype Module = Module(name: Id, reasons: seq<Reason>)

  /**
   * A stats object: `modules` is absent for a multi-compiler build, whose
   * per-compiler stats are under `children`.
   */
  datatype Stats = Stats(modules: Option<seq<Module>>, children: Option<seq<Stats>>)

  /** An edge `[source, target]` of the tree: importing module, imported module. */
  type Link = (Id, Id)

  datatype Tree = Tree(nodes: seq<Id>, edges: seq<Link>)

  /**
   * `json.modules || json.children[0].modules`: a present `modules` array (even
   * an empty one) is used; otherwise the first child's. A missing or empty
   * `children`, or a first child without `modules`, makes the translation throw.
   */
  function ModulesOf(json: Stats): Option<seq<Module>>
  {
    if json.modules.Some? then json.modules
    else if json.children.Some? && |json.children.value| > 0 then json.children.value[0].modules
    else None
  }

  /** The inner `reduce`: for each reason, the two names onto `nodes` and one edge onto `edges`. */
  function AddReasons(t: Tree, name: Id, rs: seq<Reason>): Tree
    decreases |rs|
  {
    if rs == [] then t
    else
      var t1 := AddReasons(t, name, rs[..|rs| - 1]);
      var origin := rs[|rs| - 1].origin;
      Tree(t1.nodes + [origin, name], t1.edges + [(origin, name)])
  }

  /** The outer `reduce` over the modules, from `{ nodes: [], edges: [] }`. */
  function Collect(ms: seq<Module>): Tree
    decreases |ms|
  {
    if ms == [] then Tree([], [])
    else
      var m := ms[|ms| - 1];
      AddReasons(Collect(ms[..|ms| - 1]), m.name, m.reasons)
  }

  /** `getTreeFromStats`: the collected edges, and the collected names de-duplicated; `None` where it throws. */
  function GetTreeFromStats(json: Stats): Option<Tree>
  {
    match ModulesOf(json)
    case None => None
    case Some(ms) =>
      var t := Collect(ms);
      Some(Tree(Uniq(t.nodes), t.edges))
  }

  /** The argument `new Graph(tree)` passes to `loadJSON`: a pair carries no edge data. */
  function GraphJSON(t: Tree): Descriptor
  {
    Descriptor(t.nodes, seq(|t.edges|, k requires 0 <= k < |t.edges| => Triple(t.edges[k].0, t.edges[k].1, EdgeData(None))))
  }

  // ----- Reference definitions -----

  /** The edges one module contributes: one per reason, in order. */
  function ModuleLinks(m: Module): seq<Link>
  {
    seq(|m.reasons|, k requires 0 <= k < |m.reasons| => (m.reasons[k].origin, m.name))
  }

  /** All modules' edges, module after module. */
  function Links(ms: seq<Module>): seq<Link>
    decreases |ms|
  {
    if ms == [] then [] else Links(ms[..|ms| - 1]) + ModuleLinks(ms[|ms| - 1])
  }

  /** The number of reasons of the first `i` modules. */
  function Offset(ms: seq<Module>, i: nat): nat
    requires i <= |ms|
  {
    if i == 0 then 0 else Offset(ms, i - 1) + |ms[i - 1].reasons|
  }

  /** Both endpoints of every edge, edge after edge. */
  function Ends(es: seq<Link>): seq<Id>
  {
    if es == [] then [] else [es[0].0, es[0].1] + Ends(es[1..])
  }

  // ----- Lemmas about the translation -----

  /** `Ends` distributes over concatenation. */
  lemma {:induction false} EndsConcat(a: seq<Link>, b: seq<Link>)
    ensures Ends(a + b) == Ends(a) + Ends(b)
    decreases |a|
  {
    if a != [] {
      var ab := a + b;
      assert ab[0] == a[0];
      assert ab[1..] == a[1..] + b;
      EndsConcat(a[1..], b);
      assert Ends(ab) == [a[0].0, a[0].1] + Ends(a[1..] + b);
    } else {
      assert a + b == b;
    }
  }

  /** A name is an endpoint exactly when some edge starts or ends at it. */
  lemma {:induction false} EndsMembers(es: seq<Link>)
    ensures forall e :: e in es ==> e.0 in Ends(es) && e.1 in Ends(es)
    ensures forall x :: x in Ends(es) ==> exists e :: e in es && (x == e.0 || x == e.1)
    decreases |es|
  {
    if es != [] {
      EndsMembers(es[1..]);
      assert forall e :: e in es ==> e == es[0] || e in es[1..];
    }
  }

  /** The inner `reduce` appends one module's edges, and their endpoints to the names. */
  lemma {:induction false} AddReasonsAppends(t: Tree, name: Id, rs: seq<Reason>)
    ensures var l := ModuleLinks(Module(name, rs));
      AddReasons(t, name, rs) == Tree(t.nodes + Ends(l), t.edges + l)
    decreases |rs|
  {
    if rs != [] {
      var init := rs[..|rs| - 1];
      AddReasonsAppends(t, name, init);
      var l0, l := ModuleLinks(Module(name, init)), ModuleLinks(Module(name, rs));
      var x := (rs[|rs| - 1].origin, name);
      assert l == l0 + [x];
      EndsConcat(l0, [x]);
      assert Ends([x]) == [x.0, x.1];
    }
  }

  /** The modules' fold yields exactly the reference edges, and its names are their endpoints. */
  lemma {:induction false} CollectSpec(ms: seq<Module>)
    ensures Collect(ms).edges == Links(ms)
    ensures Collect(ms).nodes == Ends(Links(ms))
    decreases |ms|
  {
    if ms != [] {
      var init, m := ms[..|ms| - 1], ms[|ms| - 1];
      CollectSpec(init);
      AddReasonsAppends(Collect(init), m.name, m.reasons);
      assert Module(m.name, m.reasons) == m;
      EndsConcat(Links(init), ModuleLinks(m));
    }
  }

  /** The edges of two runs of modules, one after the other. */
  lemma {:induction false} LinksConcat(a: seq<Module>, b: seq<Module>)
    ensures Links(a + b) == Links(a) + Links(b)
    decreases |b|
  {
    if b == [] {
      assert a + b == a;
    } else {
      var init, m := b[..|b| - 1], b[|b| - 1];
      LinksConcat(a, init);
      var ab := a + b;
      assert ab[..|ab| - 1] == a + init && ab[|ab| - 1] == m;
      assert Links(ab) == Links(a + init) + ModuleLinks(m);
      assert Links(b) == Links(init) + ModuleLinks(m);
    }
  }

  /**
   * One edge per (module, reason) pair, in module-then-reason order: as many
   * edges as reasons, and module `i`'s edges, one per reason in order, come
   * after those of the modules before it and before those of the modules after it.
   */
  lemma LinksIndexed(ms: seq<Module>)
    ensures |Links(ms)| == Offset(ms, |ms|)
    ensures forall i :: 0 <= i < |ms| ==> Links(ms) == Links(ms[..i]) + ModuleLinks(ms[i]) + Links(ms[i + 1..])
  {
    LinksCount(ms);
    forall i | 0 <= i < |ms|
      ensures Links(ms) == Links(ms[..i]) + ModuleLinks(ms[i]) + Links(ms[i + 1..])
    {
      LinksAround(ms, i);
    }
  }

  /** There are as many edges as reasons. */
  lemma {:induction false} LinksCount(ms: seq<Module>)
    ensures |Links(ms)| == Offset(ms, |ms|)
    decreases |ms|
  {
    if ms != [] {
      var init := ms[..|ms| - 1];
      LinksCount(init);
      OffsetPrefix(init, ms[|ms| - 1], |init|);
      assert init + [ms[|ms| - 1]] == ms;
    }
  }

  /** Appending a module leaves the offsets of the earlier ones alone. */
  lemma {:induction false} OffsetPrefix(ms: seq<Module>, m: Module, i: nat)
    requires i <= |ms|
    ensures Offset(ms + [m], i) == Offset(ms, i)
  {
    if i > 0 {
      OffsetPrefix(ms, m, i - 1);
      assert (ms + [m])[i - 1] == ms[i - 1];
    }
  }

  /** Module `i`'s edges sit between those of the modules around it. */
  lemma LinksAround(ms: seq<Module>, i: nat)
    requires i < |ms|
    ensures Links(ms) == Links(ms[..i]) + ModuleLinks(ms[i]) + Links(ms[i + 1..])
  {
    var pre, m, post := ms[..i], ms[i], ms[i + 1..];
    SplitAt(ms, i);
    LinksSnoc(pre, m);
    LinksConcat(pre + [m], post);
  }

  /** One more module adds its own edges at the end. */
  lemma LinksSnoc(pre: seq<Module>, m: Module)
    ensures Links(pre + [m]) == Links(pre) + ModuleLinks(m)
  {
    var pm := pre + [m];
    assert pm[..|pm| - 1] == pre && pm[|pm| - 1] == m;
  }

  /**
   * What `getTreeFromStats` returns: the reference edges; every endpoint is a
   * node and every node is an endpoint; no node twice, each at the place of
   * its first occurrence among the endpoints.
   */
  lemma TreeSpec(json: Stats)
    requires GetTreeFromStats(json).Some?
    ensures ModulesOf(json).Some?
    ensures var t := GetTreeFromStats(json).value;
      && t.edges == Links(ModulesOf(json).value)
      && (forall e :: e in t.edges ==> e.0 in t.nodes && e.1 in t.nodes)
      && (forall x :: x in t.nodes ==> exists e :: e in t.edges && (x == e.0 || x == e.1))
      && NoDup(t.nodes)
      && InFirstOccurrenceOrder(t.nodes, Ends(t.edges))
  {
    var ms := ModulesOf(json).value;
    var es := Links(ms);
    CollectSpec(ms);
    FreshMembers(Ends(es), {});
    FreshNoDup(Ends(es), {});
    FreshFirstOccurrence(Ends(es), {});
    EndsMembers(es);
  }

  /**
   * Where the modules come from: the translation throws exactly when `modules`
   * is absent and there is no first child with `modules`; a present `modules`
   * makes `children` irrelevant, and an absent one defers to the first child.
   */
  lemma StatsSource(json: Stats)
    ensures GetTreeFromStats(json).None? <==>
      json.modules.None? && (json.children.None? || |json.children.value| == 0 || json.children.value[0].modules.None?)
    ensures json.modules.Some? ==> GetTreeFromStats(json) == GetTreeFromStats(Stats(json.modules, None))
    ensures json.modules.None? && json.children.Some? && |json.children.value| > 0 && json.children.value[0].modules.Some? ==>
      GetTreeFromStats(json) == GetTreeFromStats(json.children.value[0])
  {
  }

  /**
   * `new Graph(getTreeFromStats(stats))` never throws: `loadJSON` passes, the
   * registry lists the tree's nodes in the tree's order and holds one edge per
   * tree edge, in order, between the same names.
   */
  lemma TreeLoads(json: Stats)
    requires GetTreeFromStats(json).Some?
    ensures var t := GetTreeFromStats(json).value;
      var (g, o) := Empty.LoadJSON(GraphJSON(t));
      && o == Pass
      && g.Valid()
      && Ids(g.nodes) == t.nodes
      && |g.edges| == |t.edges|
      && forall k :: 0 <= k < |t.edges| ==> g.edges[k].source.id == t.edges[k].0 && g.edges[k].target.id == t.edges[k].1
  {
    TreeSpec(json);
    LoadTree(GetTreeFromStats(json).value);
  }

  /** Loading a tree whose node list is duplicate-free and holds every endpoint. */
  lemma LoadTree(t: Tree)
    requires NoDup(t.nodes)
    requires forall e :: e in t.edges ==> e.0 in t.nodes && e.1 in t.nodes
    ensures var (g, o) := Empty.LoadJSON(GraphJSON(t));
      && o == Pass
      && g.Valid()
      && Ids(g.nodes) == t.nodes
      && |g.edges| == |t.edges|
      && forall k :: 0 <= k < |t.edges| ==> g.edges[k].source.id == t.edges[k].0 && g.edges[k].target.id == t.edges[k].1
  {
    var d := GraphJSON(t);
    var g1 := Empty.AddNodes(d.nodes);
    LoadNodes(t);
    AddEdgesAllKnown(g1, d.edges);
    var (g, o) := g1.AddEdges(d.edges);
    assert Empty.LoadJSON(d) == (g, o);
    assert g.nodes == g1.nodes && |g1.edges| == 0;
    forall k | 0 <= k < |t.edges|
      ensures g.edges[k].source.id == t.edges[k].0 && g.edges[k].target.id == t.edges[k].1
    {
      assert g.edges[|g1.edges| + k] == EdgeOf(g1, d.edges, k);
    }
  }

  /** The nodes step of loading such a tree: its names, in order, and every endpoint registered. */
  lemma LoadNodes(t: Tree)
    requires NoDup(t.nodes)
    requires forall e :: e in t.edges ==> e.0 in t.nodes && e.1 in t.nodes
    ensures var d := GraphJSON(t); var g1 := Empty.AddNodes(d.nodes);
      && g1.Valid() && g1.Numbered() && g1.EndpointsKnown()
      && g1.edges == [] && Ids(g1.nodes) == t.nodes
      && forall tr :: tr in d.edges ==> Known(g1.nodeSet, tr)
  {
    var d := GraphJSON(t);
    var g1 := Empty.AddNodes(d.nodes);
    EmptySpec();
    AddNodesSpec(Empty, d.nodes);
    AddNodesIds(Empty, d.nodes);
    FreshOfNoDup(t.nodes, {});
    assert Ids(Empty.nodes) == [] && Empty.nodeSet.Keys == {};
    forall tr | tr in d.edges ensures Known(g1.nodeSet, tr) {
      var k :| 0 <= k < |d.edges| && d.edges[k] == tr;
      assert t.edges[k] in t.edges;
    }
  }

  // ----- handleLayoutUpdate -----

  /** A node as the renderer gets it: its id and its position in `graph.nodes`. */
  datatype NodeView = NodeView(id: Id, idx: nat)

  /** An edge as the renderer gets it: its id and the positions of its endpoints in the node list. */
  datatype EdgeView = EdgeView(id: nat, sourceIdx: nat, targetIdx: nat)

  datatype View = View(nodes: seq<NodeView>, edges: seq<EdgeView>)

  /** `graph.nodes.map((n, idx) => ({ id: n.id, idx, ... }))`. */
  function NodeViews(nodes: seq<Node>): seq<NodeView>
  {
    seq(|nodes|, i requires 0 <= i < |nodes| => NodeView(nodes[i].id, i))
  }

  /** `nodes.find(node => node.id === id)`: the first entry with that id, if any. */
  function Find(views: seq<NodeView>, id: Id): (r: Option<NodeView>)
    ensures r.Some? <==> exists k :: 0 <= k < |views| && views[k].id == id
    ensures r.Some? ==> r.value.id == id && exists k :: 0 <= k < |views| && views[k] == r.value &&
                                                        forall j :: 0 <= j < k ==> views[j].id != id
    decreases |views|
  {
    if views == [] then None
    else if views[0].id == id then Some(views[0])
    else
      var r := Find(views[1..], id);
      assert forall k :: 1 <= k < |views| ==> views[k] == views[1..][k - 1];
      r
  }

  /**
   * `graph.edges.map(e => ({ id: e.id, sourceIdx: ..., targetIdx: ... }))`;
   * `None` where a `find` comes back `undefined` and reading `.idx` throws.
   */
  function EdgeViews(views: seq<NodeView>, edges: seq<Edge>): Option<seq<EdgeView>>
    decreases |edges|
  {
    if edges == [] then Some([])
    else
      var e := edges[0];
      var s, t := Find(views, e.source.id), Find(views, e.target.id);
      if s.None? || t.None? then None
      else
        match EdgeViews(views, edges[1..])
        case None => None
        case Some(rest) => Some([EdgeView(e.id, s.value.idx, t.value.idx)] + rest)
  }

  /** The index tables `handleLayoutUpdate` stores, or `None` where it throws. */
  function LayoutUpdate(nodes: seq<Node>, edges: seq<Edge>): Option<View>
  {
    var vs := NodeViews(nodes);
    match EdgeViews(vs, edges)
    case None => None
    case Some(es) => Some(View(vs, es))
  }

  /** The first node with the given id, as `find` on the node views sees it. */
  lemma FindNode(nodes: seq<Node>, id: Id)
    ensures Find(NodeViews(nodes), id).Some? <==> id in Ids(nodes)
    ensures Find(NodeViews(nodes), id).Some? ==>
      var i := Find(NodeViews(nodes), id).value.idx;
      i < |nodes| && nodes[i].id == id && forall j :: 0 <= j < i ==> nodes[j].id != id
  {
    var vs := NodeViews(nodes);
    if id in Ids(nodes) {
      var k :| 0 <= k < |nodes| && Ids(nodes)[k] == id;
      assert vs[k].id == id;
    }
    if Find(vs, id).Some? {
      var k :| 0 <= k < |vs| && vs[k] == Find(vs, id).value && forall j :: 0 <= j < k ==> vs[j].id != id;
      assert Ids(nodes)[k] == id;
      forall j | 0 <= j < k ensures nodes[j].id != id {
        assert vs[j].id == nodes[j].id;
      }
    }
  }

  /** The edge map succeeds exactly when every `find` does, and maps each edge in place. */
  lemma {:induction false} EdgeViewsSpec(views: seq<NodeView>, edges: seq<Edge>)
    ensures EdgeViews(views, edges).Some? <==>
      forall k :: 0 <= k < |edges| ==> Find(views, edges[k].source.id).Some? && Find(views, edges[k].target.id).Some?
    ensures EdgeViews(views, edges).Some? ==>
      var r := EdgeViews(views, edges).value;
      && |r| == |edges|
      && forall k :: 0 <= k < |edges| ==>
        r[k] == EdgeView(edges[k].id, Find(views, edges[k].source.id).value.idx, Find(views, edges[k].target.id).value.idx)
  {
    EdgeViewsDefined(views, edges);
    if EdgeViews(views, edges).Some? {
      EdgeViewsShape(views, edges);
    }
  }

  /** Both endpoint ids of `e` are among the views. */
  predicate Resolved(views: seq<NodeView>, e: Edge)
  {
    Find(views, e.source.id).Some? && Find(views, e.target.id).Some?
  }

  /** The failing half of `EdgeViewsSpec`. */
  lemma {:induction false} EdgeViewsDefined(views: seq<NodeView>, edges: seq<Edge>)
    ensures EdgeViews(views, edges).Some? <==> forall k :: 0 <= k < |edges| ==> Resolved(views, edges[k])
    decreases |edges|
  {
    if edges != [] {
      var rest := edges[1..];
      EdgeViewsDefined(views, rest);
      if forall k :: 0 <= k < |edges| ==> Resolved(views, edges[k]) {
        forall k | 0 <= k < |rest| ensures Resolved(views, rest[k]) {
          assert rest[k] == edges[k + 1];
        }
      } else if Resolved(views, edges[0]) {
        var k :| 0 <= k < |edges| && !Resolved(views, edges[k]);
        assert rest[k - 1] == edges[k];
      }
    }
  }

  /** The table half of `EdgeViewsSpec`. */
  lemma {:induction false} EdgeViewsShape(views: seq<NodeView>, edges: seq<Edge>)
    requires EdgeViews(views, edges).Some?
    ensures var r := EdgeViews(views, edges).value;
      && |r| == |edges|
      && forall k :: 0 <= k < |edges| ==>
        && Resolved(views, edges[k])
        && r[k] == EdgeView(edges[k].id, Find(views, edges[k].source.id).value.idx, Find(views, edges[k].target.id).value.idx)
    decreases |edges|
  {
    if edges != [] {
      EdgeViewsShape(views, edges[1..]);
      assert forall k :: 1 <= k < |edges| ==> edges[k] == edges[1..][k - 1];
    }
  }

  /**
   * `handleLayoutUpdate`: it throws exactly when some edge has an endpoint id
   * that is not a node's. Otherwise node `i` is given index `i`; the edge list
   * keeps the length, order and ids of `graph.edges`; and each edge's
   * `sourceIdx` and `targetIdx` are the positions in `graph.nodes` of the
   * first nodes carrying its source and target ids.
   */
  lemma LayoutUpdateSpec(nodes: seq<Node>, edges: seq<Edge>)
    ensures LayoutUpdate(nodes, edges).Some? <==>
      forall e :: e in edges ==> e.source.id in Ids(nodes) && e.target.id in Ids(nodes)
    ensures LayoutUpdate(nodes, edges).Some? ==>
      var v := LayoutUpdate(nodes, edges).value;
      && |v.nodes| == |nodes|
      && (forall i :: 0 <= i < |nodes| ==> v.nodes[i].idx == i && v.nodes[i].id == nodes[i].id)
      && |v.edges| == |edges|
      && forall k :: 0 <= k < |edges| ==>
        && v.edges[k].id == edges[k].id
        && IsFirstIndex(nodes, v.edges[k].sourceIdx, edges[k].source.id)
        && IsFirstIndex(nodes, v.edges[k].targetIdx, edges[k].target.id)
  {
    LayoutUpdateDefined(nodes, edges);
    if LayoutUpdate(nodes, edges).Some? {
      LayoutUpdateTables(nodes, edges);
    }
  }

  /** The throwing half of `LayoutUpdateSpec`. */
  lemma LayoutUpdateDefined(nodes: seq<Node>, edges: seq<Edge>)
    ensures LayoutUpdate(nodes, edges).Some? <==>
      forall e :: e in edges ==> e.source.id in Ids(nodes) && e.target.id in Ids(nodes)
  {
    var vs := NodeViews(nodes);
    EdgeViewsSpec(vs, edges);
    forall k | 0 <= k < |edges|
      ensures (Find(vs, edges[k].source.id).Some? && Find(vs, edges[k].target.id).Some?) <==>
              (edges[k].source.id in Ids(nodes) && edges[k].target.id in Ids(nodes))
    {
      FindNode(nodes, edges[k].source.id);
      FindNode(nodes, edges[k].target.id);
    }
    assert (forall e :: e in edges ==> e.source.id in Ids(nodes) && e.target.id in Ids(nodes)) <==>
           (forall k :: 0 <= k < |edges| ==> edges[k].source.id in Ids(nodes) && edges[k].target.id in Ids(nodes));
  }

  /** The tables half of `LayoutUpdateSpec`. */
  lemma LayoutUpdateTables(nodes: seq<Node>, edges: seq<Edge>)
    requires LayoutUpdate(nodes, edges).Some?
    ensures var v := LayoutUpdate(nodes, edges).value;
      && |v.nodes| == |nodes|
      && (forall i :: 0 <= i < |nodes| ==> v.nodes[i].idx == i && v.nodes[i].id == nodes[i].id)
      && |v.edges| == |edges|
      && forall k :: 0 <= k < |edges| ==>
        && v.edges[k].id == edges[k].id
        && IsFirstIndex(nodes, v.edges[k].sourceIdx, edges[k].source.id)
        && IsFirstIndex(nodes, v.edges[k].targetIdx, edges[k].target.id)
  {
    var vs := NodeViews(nodes);
    EdgeViewsSpec(vs, edges);
    forall k | 0 <= k < |edges|
      ensures IsFirstIndex(nodes, Find(vs, edges[k].source.id).value.idx, edges[k].source.id)
      ensures IsFirstIndex(nodes, Find(vs, edges[k].target.id).value.idx, edges[k].target.id)
    {
      FindNode(nodes, edges[k].source.id);
      FindNode(nodes, edges[k].target.id);
    }
  }

  /** `i` is the position of the first node with id `id`. */
  ghost predicate IsFirstIndex(nodes: seq<Node>, i: nat, id: Id)
  {
    i < |nodes| && nodes[i].id == id && forall j :: 0 <= j < i ==> nodes[j].id != id
  }

  /**
   * On the layout's registry every `find` succeeds, since every edge runs
   * between registered nodes, and, node ids being unique, each index is the
   * only position carrying that id.
   */
  lemma LayoutUpdateOnGraph(g: GraphValue)
    requires g.Valid() && g.EndpointsKnown()
    ensures LayoutUpdate(g.nodes, g.edges).Some?
    ensures var v := LayoutUpdate(g.nodes, g.edges).value;
      |v.edges| == |g.edges| &&
      forall k, j :: 0 <= k < |g.edges| && 0 <= j < |g.nodes| ==>
        (g.nodes[j].id == g.edges[k].source.id <==> j == v.edges[k].sourceIdx) &&
        (g.nodes[j].id == g.edges[k].target.id <==> j == v.edges[k].targetIdx)
  {
    LayoutUpdateSpec(g.nodes, g.edges);
  }

  // ----- Zoom -----

  /** The component's `maxZoom`. */
  const MaxZoom: int := 15

  /** `Math.min(maxZoom, Math.max(1, zoom + zoomDelta))`, characterised. */
  function ZoomBy(zoom: int, delta: int): (z: int)
    ensures 1 <= z <= MaxZoom
    ensures 1 <= zoom + delta <= MaxZoom ==> z == zoom + delta
    ensures zoom + delta < 1 ==> z == 1
    ensures MaxZoom < zoom + delta ==> z == MaxZoom
  {
    if zoom + delta < 1 then 1 else if MaxZoom < zoom + delta then MaxZoom else zoom + delta
  }

  /** The − button: `Math.max(0, zoom - 1)`. */
  function ZoomedOut(zoom: int): (z: int)
    ensures 0 <= z
    ensures 1 <= zoom ==> z == zoom - 1
    ensures zoom < 1 ==> z == 0
  {
    if zoom - 1 < 0 then 0 else zoom - 1
  }

  /** The + button: `Math.min(maxZoom, zoom + 1)`. */
  function ZoomedIn(zoom: int): (z: int)
    ensures z <= MaxZoom
    ensures zoom < MaxZoom ==> z == zoom + 1
    ensures MaxZoom <= zoom ==> z == MaxZoom
  {
    if MaxZoom < zoom + 1 then MaxZoom else zoom + 1
  }

  /**
   * The buttons keep a zoom in `0..maxZoom` there, and one press of − can
   * leave the range `1..maxZoom` that the wheel handler keeps: from 1 it gives 0.
   */
  lemma ButtonsRange(zoom: int)
    requires 0 <= zoom <= MaxZoom
    ensures 0 <= ZoomedOut(zoom) <= MaxZoom && 0 <= ZoomedIn(zoom) <= MaxZoom
    ensures ZoomedOut(1) == 0 && ZoomBy(1, -1) == 1
  {
  }

  /** Wheel zooming is absorbed by the bounds: zooming again by 0 changes nothing, and each step stays in range. */
  lemma ZoomByStable(zoom: int, delta: int, delta2: int)
    ensures ZoomBy(ZoomBy(zoom, delta), 0) == ZoomBy(zoom, delta)
    ensures 0 <= delta && 0 <= delta2 ==> ZoomBy(ZoomBy(zoom, delta), delta2) >= ZoomBy(zoom, delta)
    ensures delta <= 0 && delta2 <= 0 ==> ZoomBy(ZoomBy(zoom, delta), delta2) <= ZoomBy(zoom, delta)
  {
  }

  // ----- The component state -----

  /** The fields of the component's `state` that the modelled handlers set. */
  class Component {
    var zoom: int
    var nodes: seq<NodeView>
    var edges: seq<EdgeView>

    /** The initial `state`: zoom 5, no nodes and no edges. */
    constructor ()
      ensures zoom == 5 && nodes == [] && edges == []
    {
      zoom := 5;
      nodes := [];
      edges := [];
    }

    /** `handleZoom`. */
    method HandleZoom(delta: int)
      modifies this`zoom
      ensures zoom == ZoomBy(old(zoom), delta)
    {
      var z := zoom + delta;
      if z < 1 {
        z := 1;
      }
      if MaxZoom < z {
        z := MaxZoom;
      }
      zoom := z;
    }

    /** The − button's click handler. */
    method ZoomOut()
      modifies this`zoom
      ensures zoom == ZoomedOut(old(zoom))
    {
      zoom := if zoom - 1 < 0 then 0 else zoom - 1;
    }

    /** The + button's click handler. */
    method ZoomIn()
      modifies this`zoom
      ensures zoom == ZoomedIn(old(zoom))
    {
      zoom := if MaxZoom < zoom + 1 then MaxZoom else zoom + 1;
    }

    /**
     * `handleLayoutUpdate` on the layout's registry: stores the index tables,
     * or throws (`ok` false) before `setState`, leaving the state as it was.
     */
    method HandleLayoutUpdate(graph: Graph) returns (ok: bool)
      modifies this`nodes, this`edges
      ensures ok == LayoutUpdate(graph.nodes, graph.edges).Some?
      ensures ok ==> nodes == LayoutUpdate(graph.nodes, graph.edges).value.nodes &&
                     edges == LayoutUpdate(graph.nodes, graph.edges).value.edges
      ensures !ok ==> nodes == old(nodes) && edges == old(edges)
    {
      var v := LayoutUpdate(graph.nodes, graph.edges);
      ok := v.Some?;
      if ok {
        nodes := v.value.nodes;
        edges := v.value.edges;
      }
    }
  }
}
