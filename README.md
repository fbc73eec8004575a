# Graph algorithms of GraphLibrary, modelled in Dafny

This project models the algorithm suite of the GraphLibrary C# library, in
the static class `Algorithms`:
- breadth-first traversal, from one source and over all vertices;
- depth-first traversal, from one source and over all vertices, and its recursive worker `DfsRecursion`;
- Kosaraju's strongly connected components;
- the Eulerian-cycle test;
- shortest paths: `ShortestPath` and `ShortestPathsAllVertices`, which choose Bellman-Ford or Dijkstra;
- topological sorting through `IsDag`.

The algorithms work by updating queues, stacks, dictionaries and lists step by step. They are therefore
Dafny methods with loops and invariants. Each method is proved against a
specification stated on its results: what a traversal reports, which vertices
lie in which component, least walk weights, and topological orders.

**The graph.** The graph is the input value `Graphs.Graph`:
- a sequence of vertices, each with a name and the `DegreeOut` / `DegreeIn` counters of an oriented vertex;
- a sequence of weighted edges, with `int` weights.

The storage class that maintains the graph is not part of this model. What
it keeps between calls is stated as the predicate `Graphs.Valid`:
- the names are distinct;
- every edge joins two vertices;
- there is at most one edge per ordered pair;
- the degree counters equal the numbers of incident edges.

`GetOutAdjacentVertices`, `GetOutEdges`, `GetEdge` / `GetWeight` and
`ReverseGraph` are pure functions over that value. `ReverseGraph` flips
every edge and swaps the counters.

**Callbacks and exceptions.** The callbacks of the traversals are modelled as the events of a returned trace:
- for Dfs, `Open`, `Close` and `Follow`;
- for Bfs, `Visit` and `Scan`.

The dictionaries a caller may share between Dfs calls are maps. Each call is handed a map and returns the updated one.

Exceptions are the error cases of a `Result`: `SourceNotInGraph`,
`DestinationNotInGraph`, `NoPath`, `NegativeEdges`, `DuplicateKey` (the
`Dictionary.Add` of a source a shared map already holds), `NegativeCycle` and
`GraphIsNotDag`.

**Where the model departs from the code.** Four places in the source do not
do what the library evidently intends:
- the single-source Bfs skips every vertex it dequeues;
- the all-vertices Bfs therefore never finishes;
- the all-vertices Dfs stops once half of the vertices are visited;
- `IsDag` has no return statement. A C# method with a non-void return type that can reach its end does not compile (compiler error CS0161), so as written it computes no verdict.

The first three are modelled as written, with a proof of the defect, and next to that in corrected form (see "## Findings").
`GetStronglyConnectedComponents`, `ContainsEurelianCycle` and `IsDag` call the all-vertices Dfs. Each of them is modelled twice: once over the as-written Dfs, with the input on which the result comes out wrong, and once over the corrected Dfs.
The rest of the model uses the corrected forms. `IsDag` is modelled as the
close-order stack it builds; its boolean is an unconstrained choice.

**Dijkstra without a finalised set.** Textbook Dijkstra keeps a set of finalised vertices. `DjikstraShortestPath` has none: it re-scans a vertex whenever a stale queue entry for it is dequeued. The model follows the code. It proves that this loop still terminates on non-negative weights and returns exact distances.

**What is proved.**
- Single-source Bfs (corrected) reports every vertex reachable from the source exactly once, the source first. Each vertex is followed by the edges out of it.
- The vertices come in breadth order: their least numbers of edges from the source never decrease along the report.
- All-vertices Bfs (corrected) reports every vertex. Since every round starts a fresh dictionary, it may report a vertex more than once, as the code does.
- DfsRecursion produces a well-nested trace of opens and closes. Each vertex is opened at most once. Every followed edge is a graph edge, immediately followed by the opening of its target. The visited map grows by exactly the opened vertices, now Closed.
- All-vertices Dfs (corrected) opens and closes every vertex exactly once. On an acyclic graph, successors close first.
- The components (corrected) partition the vertices into non-empty lists. Every vertex of a component reaches the component's first vertex.
- The components as written are non-empty, disjoint and reach their first vertex too, but they need not cover the graph. They cover every vertex the halted first pass closed, at least half of the vertices. The second pass runs over the whole reversed graph, so they may also hold unvisited vertices that reach a popped root. On a graph without edges they hold exactly the closed vertices, (n + 1) / 2 of the n.
- ContainsEurelianCycle, corrected and as written, is true exactly when there is at most one component and every vertex is balanced, each over its own components.
- The shortest-path functions return these errors, and no others:
  - all four: SourceNotInGraph exactly when the source is missing (in ShortestPath, once the destination is found);
  - ShortestPath: DestinationNotInGraph exactly when the destination is missing, checked before the source;
  - DjikstraShortestPath: NegativeEdges exactly when some edge weighs below zero, even with no negative cycle;
  - BellmanFordShortestPath, ShortestPathsAllVertices and ShortestPath: NegativeCycle exactly when a negative cycle is reachable from the source;
  - ShortestPath: NoPath exactly when, with no such cycle, the destination is not reachable from the source.
- When they succeed:
  - the distances are the least walk weights;
  - every predecessor link is a tight edge;
  - the path ShortestPath returns is a least-weight walk from the source to the destination, with the weight it reports.
- With no negative edge, Dijkstra and Bellman-Ford compute the same distances.
- The list IsDag (corrected) returns holds every vertex once, and it is a topological order exactly when the graph is acyclic.

## Model

| member | source | states |
|---|---|---|
| Graphs.OutEdgesOf | GraphLibrary/Algorithms/Algorithms.cs:45 | GetOutEdges lists exactly the edges leaving the vertex |
| Graphs.OutAdjacentIsSucc | GraphLibrary/Algorithms/Algorithms.cs:38 | GetOutAdjacentVertices yields exactly the out-neighbours |
| Graphs.OutAdjacentDistinct | GraphLibrary/Algorithms/Algorithms.cs:38 | on a valid graph each out-neighbour is listed once |
| Graphs.FindEdge | GraphLibrary/Algorithms/Algorithms.cs:98 | GetEdge finds an edge with the asked endpoints, or reports that there is none |
| Graphs.GetEdgeOfEdge | GraphLibrary/Graphs/WeightedOrientedGraph.cs:27 | GetEdge / GetWeight of a stored edge return that edge and its weight |
| Graphs.ReverseSucc | GraphLibrary/Algorithms/Algorithms.cs:112 | in the reversed graph, x follows u exactly when u follows x in the original |
| Graphs.ReverseValid | GraphLibrary/Algorithms/Algorithms.cs:112 | reversing keeps the storage invariant, counters included |
| Graphs.ReverseVertexSet | GraphLibrary/Algorithms/Algorithms.cs:112 | reversing keeps the vertex names |
| Graphs.ReverseInvolution | GraphLibrary/Algorithms/Algorithms.cs:112 | reversing twice gives back the graph |
| Graphs.BalancedByEdges | GraphLibrary/Vertices/OrientedVertex.cs:13-14 | on a valid graph, equal DegreeIn and DegreeOut counters mean equal numbers of edges in and out |
| BreadthFirst.Unvisited | GraphLibrary/Algorithms/Algorithms.cs:38-40 | the filtered neighbour list holds exactly the neighbours not in the dictionary |
| BreadthFirst.UnvisitedDistinct | GraphLibrary/Algorithms/Algorithms.cs:38-40 | filtering a repetition-free list keeps it repetition-free |
| BreadthFirst.EnqueueAll | GraphLibrary/Algorithms/Algorithms.cs:41-42 | the batch is appended to the queue and its vertices enter the dictionary as OPENED; other entries are untouched |
| BreadthFirst.BfsAsWritten | GraphLibrary/Algorithms/Algorithms.cs:21-48 | as written: unknown source rejected; otherwise no callback fires at all |
| BreadthFirst.Bfs | GraphLibrary/Algorithms/Algorithms.cs:21-48 | corrected: unknown source rejected; otherwise every reachable vertex is reported exactly once, source first, each followed by its out-edges, in breadth order: the least number of edges from the source never decreases along the report |
| BreadthFirst.LevelStep | GraphLibrary/Algorithms/Algorithms.cs:33-42 | dequeuing the head and enqueuing its new out-neighbours one level below keeps the levels: each is the length of a real walk, they never decrease along the enqueue order, and every processed vertex's out-neighbours are at most one level below it |
| BreadthFirst.WalkLevel | GraphLibrary/Algorithms/Algorithms.cs:33-47 | once every vertex is processed, no walk from the source reaches a vertex in fewer edges than its level |
| BreadthFirst.LevelDone | GraphLibrary/Algorithms/Algorithms.cs:33-47 | when the queue empties, every level is the least number of edges from the source, and the processed order is breadth order |
| BreadthFirst.StepCount | GraphLibrary/Algorithms/Algorithms.cs:30-42 | each enqueue removes one vertex from the not-yet-enqueued ones, so at most V vertices are ever enqueued |
| BreadthFirst.BfsDone | GraphLibrary/Algorithms/Algorithms.cs:33-47 | when the queue empties, the processed vertices are exactly the reachable ones |
| BreadthFirst.BfsAllVerticesAsWritten | GraphLibrary/Algorithms/Algorithms.cs:49-60 | as written: no number of rounds empties the work set of a non-empty graph, and nothing is reported |
| BreadthFirst.BfsAllVertices | GraphLibrary/Algorithms/Algorithms.cs:49-60 | corrected: every round is a complete traversal from a distinct root, and together they report every vertex |
| BreadthFirst.BfsAllVerticesRepeats | GraphLibrary/Algorithms/Algorithms.cs:51-58 | on the graph a -> b, rounds from b and then from a meet that contract, and the joint report names b twice |
| DepthFirst.DfsRecursion | GraphLibrary/Algorithms/Algorithms.cs:88-103 | well-nested open/close trace starting at Open(s) and ending at Close(s); each vertex is opened at most once and is reachable from s; every edge event is a graph edge immediately followed by opening its target; the map gains exactly the opened vertices, as Closed; on an acyclic graph successors close first |
| DepthFirst.Dfs | GraphLibrary/Algorithms/Algorithms.cs:75-87 | unknown source rejected; a source already in a shared map is rejected by Dictionary.Add; otherwise the DfsRecursion outcome |
| DepthFirst.DfsAllVerticesAsWritten | GraphLibrary/Algorithms/Algorithms.cs:61-74 | as written: the rounds share one map and never reopen a vertex, but the loop stops once half of the vertices are visited; on an edgeless graph, exactly after the rounding-up half |
| DepthFirst.DfsAllVerticesMissesVertex | GraphLibrary/Algorithms/Algorithms.cs:68-72 | on two isolated vertices the as-written loop leaves one unopened |
| DepthFirst.RoundCount | GraphLibrary/Algorithms/Algorithms.cs:68-72 | each round visits at least one new vertex, and exactly one on an edgeless graph |
| DepthFirst.DfsAllVertices | GraphLibrary/Algorithms/Algorithms.cs:61-74 | corrected: every vertex is opened once and closed once, the map holds all of them, and on an acyclic graph successors close first |
| Traces.WellNestedCloses | GraphLibrary/Algorithms/Algorithms.cs:94-102 | a well-nested trace closes exactly the vertices it opens, each once |
| Graphs.ReverseReachable | GraphLibrary/Algorithms/Algorithms.cs:112 | a walk of the reversed graph from x to y is, read backwards, a walk of the graph from y to x |
| Components.RoundReachesRoot | GraphLibrary/Algorithms/Algorithms.cs:121 | every vertex a Dfs round of the reversed graph opens from v reaches v in the graph |
| Components.CollectComponents | GraphLibrary/Algorithms/Algorithms.cs:115-124 | every component starts with a popped root and all its vertices reach that root; no vertex appears twice; every popped vertex appears, and on an edgeless graph nothing else |
| Components.GetStronglyConnectedComponents | GraphLibrary/Algorithms/Algorithms.cs:105-127 | corrected: the components are non-empty, every vertex of a component reaches the component's first vertex, no vertex appears twice, and every vertex appears |
| Components.GetStronglyConnectedComponentsAsWritten | GraphLibrary/Algorithms/Algorithms.cs:105-127 | as written: non-empty, disjoint components, each vertex reaching its component's first vertex; they cover every vertex the halted first pass closed (the ghost `closed`, at least half of the vertices) and possibly unvisited vertices that reach a popped root; on an edgeless graph exactly the closed vertices, the rounding-up half |
| Components.EdgelessSingletons | GraphLibrary/Algorithms/Algorithms.cs:115-124 | on an edgeless graph every component holds exactly one vertex |
| Components.Unbalanced | GraphLibrary/Algorithms/Algorithms.cs:134 | GetVerticesWith(DegreeIn != DegreeOut) returns exactly the unbalanced vertices |
| Components.UnbalancedEmpty | GraphLibrary/Algorithms/Algorithms.cs:134 | that list is empty exactly when every vertex is balanced |
| Components.EulerVerdict | GraphLibrary/Algorithms/Algorithms.cs:133-135 | true exactly when there is at most one component and every vertex is balanced |
| Components.ContainsEurelianCycle | GraphLibrary/Algorithms/Algorithms.cs:129-136 | corrected: true exactly when there is at most one component and every vertex is balanced, over components that partition the vertices and reach their first vertex; on a graph without edges, true exactly when it has at most one vertex |
| Components.ContainsEurelianCycleAsWritten | GraphLibrary/Algorithms/Algorithms.cs:129-136 | as written: the same verdict, over the components of the as-written first pass; on a graph without edges, true exactly when it has at most two vertices |
| Components.EdgelessBalanced | GraphLibrary/Vertices/OrientedVertex.cs:13-14 | without edges every vertex of a valid graph is balanced |
| Components.EulerOnTwoIsolatedVertices | GraphLibrary/Algorithms/Algorithms.cs:114 | on two isolated balanced vertices the as-written test answers true and the corrected one false |
| Walks.NegativeEdgesOf | GraphLibrary/Algorithms/Algorithms.cs:175 | GetEdgesWith(Weight < 0) returns exactly the negative edges |
| Walks.NegativeEdgesEmpty | GraphLibrary/Algorithms/Algorithms.cs:189 | that list is empty exactly when no weight is negative |
| Walks.ShortenWalk | GraphLibrary/Algorithms/Algorithms.cs:233 | every walk has a repetition-free walk with the same ends that is no heavier unless a negative cycle is reachable |
| Walks.SimpleWalkLength | GraphLibrary/Algorithms/Algorithms.cs:233 | a repetition-free walk has at most V vertices, which is why V - 1 passes suffice |
| Walks.RelaxedLowerBounds | GraphLibrary/Algorithms/Algorithms.cs:199-213 | distances no edge can improve, with the source at 0 or below, bound every walk from the source |
| Walks.RelaxedNoNegativeCycle | GraphLibrary/Algorithms/Algorithms.cs:248-256 | such distances rule out every negative cycle reachable from the source |
| Walks.ShortestUnique | GraphLibrary/Algorithms/Algorithms.cs:167-179 | two maps of least walk weights from one source are the same map |
| Walks.NonNegativeNoCycle | GraphLibrary/Algorithms/Algorithms.cs:175-178 | without negative weights there is no negative cycle |
| Relaxation.RelaxStep | GraphLibrary/Algorithms/Algorithms.cs:239-244 | one improvement keeps the relaxation state: every distance is the weight of a real walk, every predecessor link is an edge between vertices with distances, and the stamps order the links |
| Relaxation.Tighten | GraphLibrary/Algorithms/Algorithms.cs:248-258 | once no edge between reached vertices can be improved, every predecessor link is tight and points at an earlier write |
| Relaxation.RelaxedResult | GraphLibrary/Algorithms/Algorithms.cs:214 | a state no edge can improve holds exact distances, source at 0, a predecessor tree, and no reachable negative cycle |
| Dijkstra.MinIndex | GraphLibrary/Algorithms/Algorithms.cs:201 | Dequeue removes an entry of least priority |
| Dijkstra.ScanProgress | GraphLibrary/Algorithms/Algorithms.cs:199-213 | every round gives a new vertex a distance, lowers the sum of distances, or shortens the queue |
| Dijkstra.ScanRelaxedAll | GraphLibrary/Algorithms/Algorithms.cs:203-212 | after a round, every vertex with a distance is still queued or has all its out-edges relaxed |
| Dijkstra.RelaxOutEdge | GraphLibrary/Algorithms/Algorithms.cs:205-211 | an out-edge that improves its target sets the target's distance to its source's distance plus its weight and its predecessor to the source, and enqueues the target with that distance; any other edge changes neither map nor the queue; the scan state is kept |
| Dijkstra.RelaxOutEdges | GraphLibrary/Algorithms/Algorithms.cs:203-212 | after the scan every out-edge of the vertex leads to a vertex with a distance that the edge does not improve |
| Dijkstra.DjikstraShortestPath | GraphLibrary/Algorithms/Algorithms.cs:181-215 | unknown source and negative edges rejected; otherwise it terminates with exact distances and a tree of tight predecessor links, and no edge can still be relaxed |
| BellmanFord.PassEnd | GraphLibrary/Algorithms/Algorithms.cs:233-246 | after pass k + 1 every walk from the source with at most k + 1 edges is bounded by its end's distance |
| BellmanFord.RelaxEdge | GraphLibrary/Algorithms/Algorithms.cs:237-244 | an edge that improves its target sets the target's distance through the edge and its predecessor to the edge's source; any other edge changes neither map; the relaxation state is kept and the pass's bound extends to that edge |
| BellmanFord.RelaxAllEdges | GraphLibrary/Algorithms/Algorithms.cs:235-245 | one pass over all edges in list order extends the bound from walks of k edges to walks of k + 1 |
| BellmanFord.BfRelaxed | GraphLibrary/Algorithms/Algorithms.cs:233-256 | after V - 1 passes, with no reachable negative cycle, no edge can be improved |
| BellmanFord.BfClosed | GraphLibrary/Algorithms/Algorithms.cs:233-246 | after V - 1 passes every edge out of a reached vertex leads to a reached vertex |
| BellmanFord.NegativeCycleCheck | GraphLibrary/Algorithms/Algorithms.cs:248-256 | the final pass reports exactly when some edge between two reached vertices can still be improved |
| BellmanFord.BellmanFordShortestPath | GraphLibrary/Algorithms/Algorithms.cs:216-259 | unknown source rejected; NegativeCycle exactly when a negative cycle is reachable; otherwise exact distances, a tree of tight predecessor links, and no edge between reached vertices can be improved |
| ShortestPaths.ShortestPathsAllVertices | GraphLibrary/Algorithms/Algorithms.cs:167-179 | an error exactly when the source is missing or reaches a negative cycle; otherwise exact distances and a tree of tight links, whichever algorithm the weights select |
| ShortestPaths.DijkstraAgreesWithBellmanFord | GraphLibrary/Algorithms/Algorithms.cs:175-178 | with no negative edge both algorithms succeed and agree on the distances |
| ShortestPaths.TraceStep | GraphLibrary/Algorithms/Algorithms.cs:156-160 | each step back along a predecessor link goes to an earlier stamp, so the loop ends |
| ShortestPaths.TraceDone | GraphLibrary/Algorithms/Algorithms.cs:162-163 | the reversed list is the traced walk from source to destination, and it is a least one |
| ShortestPaths.ShortestPath | GraphLibrary/Algorithms/Algorithms.cs:138-166 | missing destination, missing source, a reachable negative cycle and an unreachable destination are the errors, exactly; otherwise the path runs from source to destination along edges, its weight is the one reported, and no walk is lighter |
| Topological.TopoReverse | GraphLibrary/Algorithms/Algorithms.cs:279-281 | reversing a close order in which successors close first gives a topological order |
| Topological.OrderAcyclic | GraphLibrary/Algorithms/Algorithms.cs:279-281 | a repetition-free topological order of all vertices rules out every cycle |
| Topological.IsDag | GraphLibrary/Algorithms/Algorithms.cs:271-282 | corrected: the list holds every vertex once, and it is a topological order exactly when the graph is acyclic |
| Topological.IsDagAsWritten | GraphLibrary/Algorithms/Algorithms.cs:271-282 | as written: the list holds no vertex twice but only the vertices the halted Dfs closed, at least half of them, exactly the rounding-up half on an edgeless graph; on an acyclic graph it is still a topological order of those |
| Topological.IsDagOnTwoIsolatedVertices | GraphLibrary/Algorithms/Algorithms.cs:279 | on two isolated vertices the as-written list holds one vertex and the corrected one two |
| Topological.TopologicalSorting | GraphLibrary/Algorithms/Algorithms.cs:261-269 | corrected: GraphIsNotDag exactly when IsDag's verdict is false; otherwise IsDag's list, every vertex once, a topological order exactly when the graph is acyclic |

## Left out

- Topological.IsDag: the source method has no return statement and does not compile as written (CS0161), so its verdict is an unconstrained choice and it is not tied to acyclicity.
- Topological.TopologicalSorting: inherits the unconstrained verdict; only its relation to IsDag's verdict and list is stated.
- Topological.TopologicalSorting: the list it returns is the corrected IsDag's, built from the corrected all-vertices Dfs. The list the code's halted Dfs produces (Algorithms.cs:266 calling :279) is modelled only by Topological.IsDagAsWritten.
- Components.GetStronglyConnectedComponents: the components are proved to partition the vertices, and every vertex of a component to reach its first vertex. That the first vertex reaches them back, and that no component could be larger, is not proved: it needs the close-order argument of Kosaraju's first pass, which is not modelled.
- Components.GetStronglyConnectedComponents: runs over the corrected all-vertices Dfs; the code's first pass is the as-written one, modelled by Components.GetStronglyConnectedComponentsAsWritten.
- Components.ContainsEurelianCycle: runs over the corrected components; the code's verdict is Components.ContainsEurelianCycleAsWritten.
- Topological.IsDag: runs over the corrected all-vertices Dfs; the code's list is Topological.IsDagAsWritten.
- BreadthFirst.BfsAllVertices: it may report a vertex more than once, because each round of the code starts a fresh dictionary; Distinct is therefore not stated, and BreadthFirst.BfsAllVerticesRepeats shows a repetition.
- Components.ContainsEurelianCycle: the components are the ones returned by GetStronglyConnectedComponents. The Eulerian property of the graph itself is not stated.
- ShortestPaths.ShortestPath: the statement that consecutive path vertices follow predecessor links is replaced by the walk, its weight and its minimality. The predecessor map is not returned.
- ShortestPaths.ShortestPathsAllVertices: the stamps that prove termination of the path reconstruction are ghost results; the source has no such values. Which of the two algorithms ran is not observable in the result and is not stated.
- Dijkstra.MinIndex: PriorityQueue ties are broken towards the first inserted least entry. The library's heap order among equal priorities is not modelled.
- BellmanFord.BellmanFordShortestPath: the source checks the source vertex twice in a row. The second check can never fire and is not modelled.
- BellmanFord.RelaxEdge: the `continue` on a source without a distance and the improvement test are modelled together as one test.
- All-vertices Bfs and Dfs pick their next root with `HashSet.First()`. The model picks an arbitrary remaining vertex.
- Generic `INumber` weights are `int`; overflow of the weight type is not modelled.
- Callbacks do nothing but record events; any other side effect of a caller's callback is not modelled.
- The graph storage (vertex and edge insertion and removal, JSON serialisation and file loading) is not part of this model. Its invariant is assumed as `Valid`.
- Exceptions thrown by the unseen storage (an absent vertex passed to GetVertex, for instance) cannot arise under `Valid` and are not modelled.

## Findings

| source | as written | input that shows it | evidently intended | confidence | as-written member | corrected member |
|---|---|---|---|---|---|---|
| GraphLibrary/Algorithms/Algorithms.cs:36 | every dequeued vertex is skipped when it is in `visited`, but each one was added to `visited` when it was enqueued (lines 31, 42) | any graph and any source vertex: the source is dequeued, skipped, and the loop ends with no callback | process each dequeued vertex once, report it and its out-edges | not executed | BreadthFirst.BfsAsWritten | BreadthFirst.Bfs |
| GraphLibrary/Algorithms/Algorithms.cs:55-58 | the work set shrinks only inside the vertex callback, which the single-source Bfs never calls | any graph with at least one vertex: the loop never ends | remove the reported vertices after each round until none is left | not executed | BreadthFirst.BfsAllVerticesAsWritten | BreadthFirst.BfsAllVertices |
| GraphLibrary/Algorithms/Algorithms.cs:68-72 | the loop compares the visited count with the count of still-unvisited vertices | two vertices and no edges: one round, then 1 < 1 fails and one vertex is never opened | loop while some vertex is unvisited | not executed | DepthFirst.DfsAllVerticesMissesVertex | DepthFirst.DfsAllVertices |
| GraphLibrary/Algorithms/Algorithms.cs:114 | the first pass of the components is the all-vertices Dfs of line 61, which halts half way | two vertices, no edges, both balanced: one component, so ContainsEurelianCycle answers true | a component for every vertex, so the answer is false | not executed | Components.EulerOnTwoIsolatedVertices | Components.ContainsEurelianCycle |
| GraphLibrary/Algorithms/Algorithms.cs:279 | IsDag's close-order stack comes from the same halting Dfs | two vertices and no edges: the list holds one of them | a list of every vertex | not executed | Topological.IsDagOnTwoIsolatedVertices | Topological.IsDag |
