# webpack-graph-3d core, in Dafny

This project models the core of a viewer that draws a webpack build's module
graph in 3D.

**The graph and its layout (src/springy3d.js).** The graph registry has:

- an insertion-ordered node list;
- an id-to-node dictionary;
- an edge list with no edge id twice;
- a two-level adjacency index.

The force-directed layout on top of it keeps these caches:

- one Point per node id, with position, mass, velocity and acceleration;
- one Spring per edge id, with the merging rule: only the first edge between two nodes gets a stiff Spring.

A tick runs five passes in order: Coulomb repulsion, Hooke springs, the pull to
the centre, the velocity update and the position update. `start`, `stop` and
the animation frame form a small state machine.

**The WebpackGraph component (src/WebpackGraph.js).** `getTreeFromStats`
translates a webpack stats object into node names and `[importer, imported]`
edges. `handleLayoutUpdate` computes the index tables the renderer reads. The
zoom level is kept in range by the wheel handler and by the ± buttons.

**The label texture (src/createTextTexture.js).** `createTextTexture` sizes a
label's rounded box and picks the power-of-two canvas that holds it.

The modules, in dependency order:

- `Wrappers`: `Option`, and `Outcome` (pass, or throw with an error value).
- `Seqs`: first occurrences and lodash `uniq`.
- `Vectors`: the `Vector` type.
- `Graphs`: the registry. `GraphValue` is the registry as a value, with one function per operation. Class `Graph` holds the same fields and updates them in place; each of its methods is proved equal to the matching function.
- `Caches`: `point` and `spring` as functions of the cache state. Points live in an arena (a sequence indexed by handles), so a Spring can share its two Points the way JavaScript object references do.
- `Physics`: the force laws on single Points.
- `Simulation`: each pass of a tick, as a function of the cache state.
- `Lifecycle`: the run state machine.
- `Layout`: class `ForceDirected`. Its fields are the caches and the run flags. Its methods update them with the source's loops, scratch arrays included, and are proved equal to the functions of `Caches`, `Simulation` and `Lifecycle`.
- `WebpackGraph`: the stats translation, the index tables, and a class `Component` for the state that the zoom handlers and the layout handler set.
- `TextTexture`: the label sizing.

## Model

| member | source | states |
|---|---|---|
| Vectors.Divide | src/springy3d.js:201-203 | dividing by 0 gives the zero vector (the `\|\| 0` guard on 0/0); for a non-zero divisor, multiplying back gives the original vector |
| Vectors.Magnitude2Sign | src/springy3d.js:209-211 | the squared length is never negative, and is positive exactly for a non-zero vector |
| Vectors.Magnitude | src/springy3d.js:205-207 | the length is non-negative, its square is the squared length, and it is positive exactly for a non-zero vector |
| Vectors.Normalize | src/springy3d.js:213-215 | the zero vector stays zero; any other vector becomes a unit vector that, scaled by the original length, gives the vector back |
| Vectors.Limit | src/springy3d.js:217-223 | the result is never longer than the limit; a vector shorter than the limit is unchanged, zero stays zero; a longer non-zero one is rescaled to exactly the limit in its own direction (`r * |v| == v * limit`) |
| Vectors.LimitScales | src/springy3d.js:222 | a non-zero vector at least `limit > 0` long is limited to `v * c` for `c = limit / |v|`, with `0 < c <= 1` |
| Vectors.AddSubtractInverse | src/springy3d.js:189-195 | subtracting `b` undoes adding `b`, and adding `b` undoes subtracting it |
| Vectors.AddAssociative | src/springy3d.js:189-191 | vector sums can be regrouped |
| Vectors.MultiplyDivideInverse | src/springy3d.js:197-203 | for a non-zero factor, division undoes multiplication and multiplication undoes division |
| Vectors.SubtractAntisymmetric | src/springy3d.js:193-195 | swapping the operands negates the difference and keeps its length |
| Seqs.FirstIndex | src/WebpackGraph.js:37 | the returned index holds the element and no earlier index does |
| Seqs.FreshMembers | src/WebpackGraph.js:37 | de-duplication keeps exactly the listed elements not seen before |
| Seqs.FreshNoDup | src/WebpackGraph.js:37 | de-duplication never lists an element twice |
| Seqs.FreshFirstOccurrence | src/WebpackGraph.js:37 | de-duplication lists elements by increasing first occurrence |
| Seqs.FreshOfNoDup | src/WebpackGraph.js:37 | a list without repeats and without seen elements is left as it is |
| Graphs.CountIdUnique | src/springy3d.js:96-104 | with unique edge ids, an id occurs in a list once if present and zero times otherwise |
| Graphs.HasIdAppend | src/springy3d.js:103 | after appending an edge, an id is present exactly when it was present before or is the new edge's id |
| Graphs.UniqueAppend | src/springy3d.js:97-104 | appending an edge whose id is new keeps edge ids unique |
| Graphs.AddNodeSpec | src/springy3d.js:76-84 | `addNode` appends only a new id (so node ids stay unique in `nodes`); afterwards the dictionary entry is exactly the node passed in; no other entry and no edge changes; the invariants hold |
| Graphs.AddNodeIdempotent | src/springy3d.js:76-84 | adding the same node twice is the same as adding it once |
| Graphs.AddNodeIds | src/springy3d.js:77-79 | the id list grows by the node's id exactly when that id was not registered |
| Graphs.AddNodesIds | src/springy3d.js:86-94 | `addNodes` appends the unregistered names, each once, in order of first occurrence |
| Graphs.AddNodesKeys | src/springy3d.js:86-94 | afterwards an id is registered exactly when it was registered before or is among the names |
| Graphs.AddNodesSpec | src/springy3d.js:86-94 | `addNodes` keeps every invariant, registers exactly the old ids plus the names, and leaves the edges, adjacency and counter alone |
| Graphs.AddEdgeLists | src/springy3d.js:106-120 | the edge's adjacency list exists afterwards, holds its id exactly once and keeps its old entries; every other list, present or absent, is unchanged |
| Graphs.AddEdgeOwnList | src/springy3d.js:106-120 | the list `addEdge` appends to holds the edge's id exactly once, only edges between its two keys, and its old entries |
| Graphs.AddEdgeOtherLists | src/springy3d.js:106-120 | no adjacency list other than the edge's own appears, disappears or changes |
| Graphs.AddEdgeSpec | src/springy3d.js:96-123 | `edges` gains the edge exactly when no edge has its id; the nodes and the counter are unchanged; the invariants hold |
| Graphs.AddEdgeIdempotent | src/springy3d.js:96-123 | adding the same edge twice is the same as adding it once |
| Graphs.NewEdgeSpec | src/springy3d.js:150-154 | `newEdge` gives the edge the counter's value, appends it, and moves the counter on by one; the ids stay below the counter |
| Graphs.AddTripleSpec | src/springy3d.js:126-140 | one triple passes exactly when both endpoints are registered; then one edge is appended and the counter moves on; otherwise nothing changes and the error names the source id if that is unknown, else the target id |
| Graphs.AddEdgesAllKnown | src/springy3d.js:125-142 | with every endpoint registered, the `k`-th triple becomes the appended edge with id `nextEdgeId + k`, in order, and the counter moves on by the number of triples |
| Graphs.FirstUnknown | src/springy3d.js:129-138 | the index found is the first triple with an unregistered endpoint, or the number of triples when there is none |
| Graphs.AddEdgesKeepsNodes | src/springy3d.js:125-142 | `addEdges` never changes the node list or the dictionary |
| Graphs.AddEdgesOutcome | src/springy3d.js:125-142 | `addEdges` passes exactly when no triple has an unregistered endpoint; otherwise it throws with the first such triple's unknown id, keeping what the triples before it added |
| Graphs.AddEdgesPrefix | src/springy3d.js:128-139 | once a triple throws, the later triples are not looked at |
| Graphs.EmptySpec | src/springy3d.js:61-74 | the empty registry satisfies every invariant |
| Graphs.Graph.constructor | src/springy3d.js:61-74 | a new registry is empty; the `json` argument path (71-73, `new Graph(tree)` in src/WebpackGraph.js) is `Empty.LoadJSON`, stated by `WebpackGraph.TreeLoads` |
| Graphs.Graph.AddNode | src/springy3d.js:76-84 | the in-place `addNode` makes exactly `GraphValue.AddNode`'s change, keeps the invariants, and returns the node |
| Graphs.Graph.AddNodes | src/springy3d.js:86-94 | the in-place loop makes exactly `GraphValue.AddNodes`'s change |
| Graphs.Graph.ScanForId | src/springy3d.js:97-104 | the `forEach` scan reports whether some edge of the list carries the id |
| Graphs.Graph.AddEdge | src/springy3d.js:96-123 | the in-place `addEdge` makes exactly `GraphValue.AddEdge`'s change and returns the edge |
| Graphs.Graph.NewEdge | src/springy3d.js:150-154 | the in-place `newEdge` makes `GraphValue.NewEdge`'s change and returns its edge |
| Graphs.Graph.AddEdges | src/springy3d.js:125-142 | the in-place loop reaches `GraphValue.AddEdges`'s registry and outcome, the throw included |
| Graphs.Graph.LoadJSON | src/springy3d.js:156-159 | nodes first, then edges, as `GraphValue.LoadJSON` |
| Graphs.Graph.GetEdges | src/springy3d.js:162-169 | on a valid registry, the result holds only edges between the two nodes, each id once, and it is empty when no list is filed under the two nodes |
| Physics.ApplyForce | src/springy3d.js:510-512 | only the acceleration changes, and the change times the mass is the force |
| Physics.Manhattan | src/springy3d.js:358 | the Manhattan length is non-negative, and positive for a non-zero separation |
| Physics.Factor | src/springy3d.js:357-360 | the repulsion factor is positive when the repulsion constant is |
| Physics.FactorSymmetric | src/springy3d.js:354-360 | the factor is the same whichever of the two points comes first |
| Physics.PairForceAntisymmetric | src/springy3d.js:362-367 | the force on `l` from `k` is minus the force on `k` from `l` |
| Physics.PairForces | src/springy3d.js:354-367 | the inner loop's two updates are the pair forces: `d * factor` on `i` and `d * -factor` on `j` |
| Physics.PairForceRepels | src/springy3d.js:354-367 | with positive repulsion, the pair force pushes a point away from the other |
| Physics.ForcesAntisymmetric | src/springy3d.js:344-373 | the matrix of pair forces is antisymmetric |
| Physics.ForcesCancel | src/springy3d.js:344-373 | antisymmetric pair forces sum to zero over all points |
| Physics.CoulombMomentum | src/springy3d.js:344-373 | the added accelerations, weighted by mass, sum to zero: repulsion creates no momentum |
| Physics.Push | src/springy3d.js:389-390 | only the two ends' accelerations change; for distinct ends, each change times the mass is that end's force |
| Physics.PushSpec | src/springy3d.js:389-390 | opposite forces on distinct ends produce opposite mass-weighted changes |
| Physics.ApplySpringSpec | src/springy3d.js:382-392 | one spring changes only the accelerations of its two ends, and for distinct ends the mass-weighted changes cancel |
| Physics.SpringForce | src/springy3d.js:382-392 | Hooke's law for one spring on distinct ends: the force on `point2` is opposite to that on `point1`, which projects onto the separation `d` as `k * (distance - length) / 2 * distance` and has length `k * abs(distance - length) / 2`; a stiff spring stretched beyond its rest length pulls `point1` towards `point2` and a compressed one pushes it away |
| Physics.InertSpring | src/springy3d.js:387 | a spring with stiffness 0 (a merged view) changes nothing |
| Physics.VelocityStepSpec | src/springy3d.js:401-423 | the acceleration is cleared and the position kept; mass never decreases; a point heavier than 2 is stopped with its mass kept; any other point's mass is multiplied by 1.1 exactly when `dv.x² + dv.y² > 100²` and kept otherwise; its new velocity is `(v + dv) * damping` when `|dv| < 100`, and otherwise `(v + dv * c) * damping` for some `0 < c <= 1` with `|dv * c| == 100` (`Damped`) |
| Physics.CentreAndPositionSteps | src/springy3d.js:394-431 | the pull to the centre adds the force `-repulsion/50` times the position; the position step moves the point by its velocity times the timestep; nothing else changes |
| Physics.PinnedStays | src/springy3d.js:403-429 | a point heavier than 2 does not move in a tick |
| Physics.PointTick | src/springy3d.js:394-431 | after the last three passes, the acceleration is zero and the mass has not decreased; a point heavier than 2 ends where it started, at rest, with its mass |
| Physics.KineticSpec | src/springy3d.js:437-438 | the term is half the mass times the squared speed, never negative, and zero exactly at rest |
| Caches.Handles | src/springy3d.js:290-291 | one Point handle per node |
| Caches.OkKeepsLength | src/springy3d.js:376-378 | writing new Point values into the arena keeps it consistent |
| Caches.PointOfSpec | src/springy3d.js:242-249 | `point` creates a Point only on an id's first access; the new Point has the node's mass (1.0 by default), zero velocity and zero acceleration; no other Point and no Spring changes |
| Caches.PointOfCached | src/springy3d.js:242-249 | every later `point` call for the same id returns the same Point and changes nothing |
| Caches.EnsurePointsSpec | src/springy3d.js:288-293 | after a pass, every node has a Point; old Points are kept; new ones are only appended; no Spring changes |
| Caches.HandlesDistinct | src/springy3d.js:242-249 | nodes with distinct ids have distinct Points |
| Caches.FirstCachedSpec | src/springy3d.js:257-262 | the scan finds nothing exactly when no listed edge has a cached Spring; otherwise it finds the first listed edge's Spring |
| Caches.FoundWhenListed | src/springy3d.js:257-262 | a listed edge with a cached Spring makes the scan succeed |
| Caches.FoundIsListed | src/springy3d.js:257-262 | the Spring the scan finds is cached for one of the scanned edges |
| Caches.FirstCachedBounded | src/springy3d.js:257-262 | a found Spring joins existing Points |
| Caches.SpringOfSpec | src/springy3d.js:251-285 | a cached Spring is returned as is; an edge whose node pair already has a cached Spring, in either direction, gets an uncached view with length 0 and stiffness 0 over the same two Points; otherwise a new Spring is cached, and nothing else, with the edge's length (1.0 by default), the layout's stiffness and the endpoints' Points; a view copies the first cached Spring found among the same-direction edges as is, and, only when there is none, the first among the reverse-direction edges with its ends swapped |
| Caches.SpringOfFrame | src/springy3d.js:251-285 | `spring` returns a Spring between existing Points, only appends Points, and drops no cached Point or Spring |
| Caches.SpringOfStable | src/springy3d.js:251-285 | asking again for the same edge gives the same Spring and changes nothing |
| Caches.SpringOfMerged | src/springy3d.js:251-285 | `spring` keeps at most one cached Spring per unordered pair of Points, and keeps every cached Spring tied to an edge listed between its nodes |
| Caches.NewSpringMerged | src/springy3d.js:279-281 | caching a Spring for a node pair that has none keeps both properties |
| Caches.NotSamePairAsNew | src/springy3d.js:257-281 | when both scans found nothing, no cached Spring joins the new Spring's two Points |
| Simulation.StepFn | src/springy3d.js:394-431 | the callback a pass uses is the pass's `Step` on every Point |
| Simulation.EachNode | src/springy3d.js:288-293 | a pass keeps the arena consistent |
| Simulation.EachNodeSpec | src/springy3d.js:288-293 | over distinct ids, a pass creates the same Points as fetching them all first, then applies the callback once to every node's Point and to no other Point |
| Simulation.EachNodeKeepsCaches | src/springy3d.js:288-293 | a pass adds Points for nodes that lack one and changes no other cache entry |
| Simulation.UpdateVelocitySpec | src/springy3d.js:401-423 | after `updateVelocity` every node's acceleration is zero; a node heavier than 2 is stopped with its mass kept; any other node's mass is multiplied by 1.1 exactly when the gain overshot and kept otherwise, and its velocity is the `Physics.Damped` one for its acceleration; no mass decreases |
| Simulation.Coulomb | src/springy3d.js:313-380 | `applyCoulombsLaw` keeps the arena consistent |
| Simulation.CoulombSpec | src/springy3d.js:313-380 | `applyCoulombsLaw` changes only accelerations, only those of the nodes' Points, and their mass-weighted changes sum to zero |
| Simulation.AddAccelsSpec | src/springy3d.js:375-379 | writing into distinct Points changes exactly their accelerations, by exactly the written amounts |
| Simulation.SeparatedDistinct | src/springy3d.js:332-342 | gathered Points at distinct positions are distinct Points |
| Simulation.Hooke | src/springy3d.js:382-392 | `applyHookesLaw` keeps the arena consistent |
| Simulation.HookeSpec | src/springy3d.js:382-392 | `applyHookesLaw` changes only accelerations of existing Points and keeps every cached Point and Spring; the force law of each spring is `Physics.SpringForce` |
| Simulation.HookeMerged | src/springy3d.js:382-392 | over listed edges, `applyHookesLaw` keeps the Springs merged and tied to listed edges |
| Simulation.Energy | src/springy3d.js:434-442 | `totalEnergy` only fetches Points |
| Simulation.EnergySpec | src/springy3d.js:434-442 | `totalEnergy` sums every node's kinetic energy once |
| Simulation.KineticSumSign | src/springy3d.js:437-438 | a sum of kinetic energies is never negative, and is zero exactly when every Point is at rest |
| Simulation.EnergyAtRest | src/springy3d.js:434-442 | the energy that `step` compares with the threshold is never negative, and is zero exactly when every node is at rest |
| Simulation.Nearest | src/springy3d.js:487-500 | `nearest` only fetches Points |
| Simulation.NearestSpec | src/springy3d.js:487-500 | `nearest` finds nothing exactly when there are no nodes; otherwise it returns the first node at minimum distance, with its Point and distance |
| Simulation.FirstMinSnoc | src/springy3d.js:494-496 | a new entry replaces the first minimum only when it is strictly smaller |
| Simulation.DistancesKept | src/springy3d.js:490-492 | fetching more Points does not change the distances of nodes that had one |
| Simulation.Tick | src/springy3d.js:478-484 | a tick keeps the arena consistent |
| Simulation.TickSpec | src/springy3d.js:478-484 | after a tick, every node keeps its Point, with zero acceleration and a mass not decreased; a node heavier than 2 ends where it was, at rest, with its mass; no cached Point or Spring is dropped |
| Simulation.TickKeepsSprings | src/springy3d.js:478-484 | a tick keeps at most one cached Spring per node pair, and each tied to a listed edge |
| Simulation.EnsurePointsCached | src/springy3d.js:242-249 | fetching the Points of nodes that all have one changes nothing |
| Simulation.EachNodeAt | src/springy3d.js:288-293 | a pass over nodes that all have Points applies the callback to exactly their Points |
| Lifecycle.Threshold | src/springy3d.js:235 | a missing or zero threshold becomes 0.01; any other value is kept |
| Lifecycle.StartSpec | src/springy3d.js:448-455 | `start` while running changes nothing and calls nothing; otherwise it starts the run, clears `stop` and calls `onRenderStart` |
| Lifecycle.StopSpec | src/springy3d.js:474-476 | `stop` only sets the flag, and calling it twice is the same as once |
| Lifecycle.FrameSpec | src/springy3d.js:457-471 | a frame always renders first; the run goes on exactly when `stop` is clear and the energy is not below the threshold; `onRenderStop` is called exactly when the run ends |
| Lifecycle.StopEndsNextFrame | src/springy3d.js:457-476 | after `stop`, the pending frame ends the run whatever the energy: one more tick at most |
| Lifecycle.RestartBeforeFrameIgnored | src/springy3d.js:448-476 | a `start` between `stop` and the pending frame is ignored, and that frame then ends the run |
| Lifecycle.RestartAfterEnd | src/springy3d.js:448-471 | once the run has ended, `start` begins a new one with `stop` cleared and calls `onRenderStart` |
| Layout.ForceDirected.constructor | src/springy3d.js:230-239 | empty caches, the given constants, the threshold defaulted, no run under way |
| Layout.ForceDirected.Point | src/springy3d.js:242-249 | the in-place cache update is `Caches.PointOf`'s, and so is the handle returned |
| Layout.ForceDirected.ScanCached | src/springy3d.js:257-273 | the `forEach` scan returns the first cached Spring among the edges |
| Layout.ForceDirected.Spring | src/springy3d.js:251-285 | the in-place Spring cache update and the Spring returned are `Caches.SpringOf`'s |
| Layout.ForceDirected.ApplyCoulombsLaw | src/springy3d.js:313-380 | gathering into scratch arrays, the double loop and the write-back together give `Simulation.Coulomb` |
| Layout.ForceDirected.Gather | src/springy3d.js:332-342 | the first loop fetches every node's Point and fills fresh scratch arrays with each one's handle, position, mass and acceleration |
| Layout.ForceDirected.GatherAt | src/springy3d.js:333-341 | one turn fetches node `i`'s Point and stores its data at index `i` |
| Layout.ForceDirected.WriteBack | src/springy3d.js:375-379 | the last loop stores each summed acceleration into its Point |
| Layout.ForceDirected.ForEachNode | src/springy3d.js:288-293 | the in-place `eachNode` loop gives `Simulation.EachNode` |
| Layout.ForceDirected.AttractToCentre | src/springy3d.js:394-399 | `eachNode` with the pull to the centre |
| Layout.ForceDirected.UpdateVelocity | src/springy3d.js:401-423 | `eachNode` with the velocity update |
| Layout.ForceDirected.UpdatePosition | src/springy3d.js:425-431 | `eachNode` with the position update |
| Layout.ForceDirected.ApplyHookesLaw | src/springy3d.js:382-392 | the in-place loop over the edges gives `Simulation.Hooke` |
| Layout.ForceDirected.TotalEnergy | src/springy3d.js:434-442 | the accumulating loop returns `Simulation.Energy`'s sum, and creates the Points it does |
| Layout.ForceDirected.Nearest | src/springy3d.js:487-500 | the loop returns `Simulation.Nearest`'s answer, and creates the Points it does |
| Layout.ForceDirected.Tick | src/springy3d.js:478-484 | the five passes in order give `Simulation.Tick` |
| Layout.ForceDirected.Start | src/springy3d.js:448-455 | the run flags and callbacks follow `Lifecycle.Start`, and the caches are untouched |
| Layout.ForceDirected.Stop | src/springy3d.js:474-476 | the run flags follow `Lifecycle.Stop`, and the caches are untouched |
| Layout.ForceDirected.Frame | src/springy3d.js:457-471 | one frame: a tick at timestep 0.03, then `totalEnergy`, then the run flags and callbacks of `Lifecycle.Frame` for that energy and the threshold; `totalEnergy`, which the source skips when `stop` is set, is always computed; after the tick it only fetches existing Points |
| Layout.Repulse | src/springy3d.js:344-373 | after the double loop, each scratch acceleration has gained exactly its row of pair accelerations |
| Layout.RepulseRow | src/springy3d.js:345-372 | one pass of the outer loop moves the accelerations from the state after `i` rows to the state after `i + 1` rows |
| Layout.GatheredReady | src/springy3d.js:332-342 | on a layout whose positions are apart, the gathered handles are distinct and in range |
| Layout.RepulsedIsCoulomb | src/springy3d.js:344-379 | writing back the summed accelerations gives `Simulation.Coulomb` |
| Layout.WrittenBackAdds | src/springy3d.js:375-379 | with distinct handles, writing back the sums is adding the pair accelerations |
| Layout.PartialDone | src/springy3d.js:344-373 | after every row, each acceleration has gained all its pair accelerations |
| WebpackGraph.AddReasonsAppends | src/WebpackGraph.js:31-33 | the inner `reduce` appends one module's edges, and their endpoints to the names |
| WebpackGraph.CollectSpec | src/WebpackGraph.js:30-34 | the outer fold's edges are one `[reason.module, module.name]` per reason in module-then-reason order, and its names are their endpoints |
| WebpackGraph.LinksIndexed | src/WebpackGraph.js:30-34 | there are as many edges as reasons, and module `i`'s edges, one per reason in order, sit between those of the modules before and after it |
| WebpackGraph.EndsMembers | src/WebpackGraph.js:32 | a name is an endpoint exactly when some edge starts or ends at it |
| WebpackGraph.TreeSpec | src/WebpackGraph.js:17-40 | the tree's edges are the reference edges; every endpoint is a node and every node an endpoint; no node occurs twice; nodes are in first-occurrence order |
| WebpackGraph.StatsSource | src/WebpackGraph.js:28 | the translation throws exactly when `modules` is missing and there is no first child with `modules`; a present `modules` makes `children` irrelevant; a missing one defers to the first child |
| WebpackGraph.TreeLoads | src/WebpackGraph.js:36-39 | building the graph from any translated stats never throws; it registers the tree's nodes in order and one edge per tree edge, in order, between the same names |
| WebpackGraph.LoadTree | src/springy3d.js:156-159 | loading a tree whose nodes are distinct and cover every endpoint passes, with exactly those nodes and edges |
| WebpackGraph.LoadNodes | src/springy3d.js:86-94 | the nodes step of such a load registers the names in order and every endpoint |
| WebpackGraph.Find | src/WebpackGraph.js:184-185 | `find` succeeds exactly when some view has the id, and then returns the first such view |
| WebpackGraph.FindNode | src/WebpackGraph.js:171-185 | `find` on the node views succeeds exactly for a registered id, and the index is that of the first node with it |
| WebpackGraph.EdgeViewsSpec | src/WebpackGraph.js:176-187 | the edge `map` succeeds exactly when every `find` does, and then maps each edge in place to its id and the indices of its endpoints |
| WebpackGraph.LayoutUpdateSpec | src/WebpackGraph.js:170-190 | it throws exactly when some edge has an endpoint id that no node has; otherwise node `i` gets index `i`, the edges keep their number, order and ids, and each endpoint index is that of the first node with the id |
| WebpackGraph.LayoutUpdateOnGraph | src/WebpackGraph.js:170-190 | on a valid registry it never throws, and each endpoint index is the only position carrying that id |
| WebpackGraph.ZoomBy | src/WebpackGraph.js:337-341 | a wheel zoom always lands in `1..15`; inside that range it is the plain sum, below it 1, above it 15 |
| WebpackGraph.ZoomedOut | src/WebpackGraph.js:291 | the − button never goes below 0, and otherwise goes down by one |
| WebpackGraph.ZoomedIn | src/WebpackGraph.js:298 | the + button never goes above 15, and otherwise goes up by one |
| WebpackGraph.ButtonsRange | src/WebpackGraph.js:291-298 | the buttons keep a zoom in `0..15`; from 1 the − button reaches 0, which the wheel handler never gives |
| WebpackGraph.ZoomByStable | src/WebpackGraph.js:337-341 | zooming by 0 after a zoom changes nothing, and zooms in one direction are monotone |
| WebpackGraph.Component.constructor | src/WebpackGraph.js:66-70 | the initial state: zoom 5, no nodes, no edges |
| WebpackGraph.Component.HandleZoom | src/WebpackGraph.js:337-341 | the zoom state becomes `ZoomBy` of the old zoom |
| WebpackGraph.Component.ZoomOut | src/WebpackGraph.js:291 | the zoom state becomes `ZoomedOut` of the old zoom |
| WebpackGraph.Component.ZoomIn | src/WebpackGraph.js:298 | the zoom state becomes `ZoomedIn` of the old zoom |
| WebpackGraph.Component.HandleLayoutUpdate | src/WebpackGraph.js:170-190 | it stores the index tables when they exist; otherwise it throws before `setState` and the state is unchanged |
| TextTexture.NearestSize | src/createTextTexture.js:21-25 | the result is a power of two, at least 2, at least `size`, and minimal: above 2, its half is below `size` |
| TextTexture.RealBorderRadius | src/createTextTexture.js:47 | the radius is at most the requested one and at most half the height, so twice it fits the height; it is one of the two |
| TextTexture.WidthBounds | src/createTextTexture.js:47-49 | the label is never wider than the text plus border plus height, and for a non-negative radius at least the text plus border |
| TextTexture.CanvasSize | src/createTextTexture.js:51-53 | each canvas side is the smallest power of two, from 2 on, that holds the label's width and height |

## Left out

- Animation frames (`raf`, src/springy3d.js:28, 457-471): the pending frame is modelled by `Lifecycle.Frame` and `Layout.ForceDirected.Frame`, which a caller invokes; host scheduling is not modelled.
- The seeded generator and `Vector.random` (src/springy3d.js:30-35, 181-187): the position of the `k`-th created Point is `initial(k)`, a parameter of the layout.
- Floating point: coordinates, masses and energies are mathematical reals. `Math.sqrt` is a parameter `sqrt` of which only `IsSqrt` is known (non-negative, squares back). Rounding, NaN and Infinity are not modelled; the constant 1.73205081 is kept as written. Masses are positive reals (`Graphs.Mass`): the source takes any `data.mass` that is defined, so a mass of 0 (an infinite acceleration) and negative masses are not modelled.
- Vectors.Divide: requires a non-zero divisor unless the vector is zero. A non-zero component over 0 gives an infinity in JavaScript, which reals cannot hold; the guarded 0/0 case is modelled.
- Physics.Factor: requires the two points apart, because the source divides by their Manhattan distance without softening.
- Layout.ForceDirected.ApplyCoulombsLaw: requires `CoulombReady`, that all nodes' Points will sit at distinct positions. Coinciding points give NaN in the source. The same requirement is on `Layout.ForceDirected.Tick`, `Layout.ForceDirected.Frame`, `Simulation.Coulomb` and `Simulation.Tick`.
- Key lookups: the registry's and the layout's tables are Dafny maps. JavaScript's `in` on a plain object (src/springy3d.js:77, 243) also finds inherited keys such as `constructor`, so a node with such an id would be taken as already present; that is not modelled.
- Object references: a Point is an arena index (`Caches.State.points` and `nodePoints`), and a Spring holds the two indices. Writes through a shared Point reference are therefore writes to one arena entry. Aliasing between the `Vector` objects of different Points is not modelled; the source never shares them.
- `applyCoulombsLaw`'s seven scalar scratch arrays are modelled as three arrays of `Vector`s (positions, accelerations, and handles in place of `points`) plus the masses array.
- `eachEdge` (src/springy3d.js:296-301): nothing in the modelled code calls it. `eachSpring` (304-309) is the loop of `Simulation.Hooke` and `Layout.ForceDirected.ApplyHookesLaw`.
- `newNode`, `nextNodeId` and `eventListeners` (src/springy3d.js:67-69, 144-148): nothing calls them.
- The optional callbacks of `start`: `render`, `onRenderStop` and `onRenderStart` are the events `Render`, `RenderStop` and `RenderStart` that a transition returns. Whether a callback is undefined is not modelled; every event is always emitted.
- Graphs.NewEdgeSpec: requires every edge id to be below the counter (`Numbered`). That holds when edges come only from `newEdge`, as in `loadJSON`; a direct `addEdge` with a larger hand-picked id is not covered.
- Layout.ForceDirected.Nearest: an empty graph's `{node: null, point: null, distance: null}` is `None`.
- In src/WebpackGraph.js, these are not modelled: `fetch` (11-15), the file upload (`FileReader`, `JSON.parse`), the hue functions `getHue` and `strToHue` (42-63), `handleAnimate`, rotation, resize and hover handling, `toggleEvolution`, and React rendering.
- The positions and hues of `handleLayoutUpdate`: only the ids and index tables are modelled. `WebpackGraph.Component.HandleLayoutUpdate` takes the registry and not the layout; the `point` and `spring` calls it makes are those of `Layout.ForceDirected.Point` and `Layout.ForceDirected.Spring`.
- WebpackGraph.ZoomBy: the zoom and its delta are integers. A fractional wheel delta would be kept fractional by the source.
- The zoom input's `onChange` (src/WebpackGraph.js:286) sets `parseInt` of the text without clamping; it is not modelled.
- The canvas drawing of src/createTextTexture.js (`roundRect`, `measureText`, `fillText`, `THREE.Texture`): the text width is a parameter.
- src/WebpackGraphTree.js, src/TouchableContainer.js, src/index.js, src/App.js and the config files are not part of this model.
