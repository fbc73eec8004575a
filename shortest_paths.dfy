/**
 * ShortestPathsAllVertices, which runs Bellman-Ford when some edge weighs
 * less than zero and Dijkstra otherwise, and ShortestPath, which follows
 * the predecessors from the destination back to the source.
 */
module ShortestPaths {
  import opened Seqs
  import opened Wrappers
  import opened Graphs
  import opened Walks
  import opened Relaxation
  import opened Dijkstra
  import opened BellmanFord

  /**
   * ShortestPathsAllVertices: an error exactly when the source is missing or
   * reaches a negative cycle; otherwise exact distances and a tree of tight
   * predecessor links, whichever algorithm ran.
   */
  method ShortestPathsAllVertices(g: Graph, s: VertexName)
    returns (r: Result<(Distances, Predecessors)>, ghost stamp: Stamps)
    requires Valid(g)
    ensures !IsVertex(g, s) ==> r == Err(SourceNotInGraph)
    ensures IsVertex(g, s) ==> (r.Err? <==> NegativeCycleFrom(g, s))
    ensures IsVertex(g, s) && r.Err? ==> r.error == NegativeCycle
    ensures r.Ok? ==> SearchResult(g, s, r.value.0, r.value.1, stamp)
  {
    if !IsVertex(g, s) {
      return Err(SourceNotInGraph), map[];
    }
    NegativeEdgesEmpty(g);
    var negative := |NegativeEdgesOf(g.edges)| > 0;
    if negative {
      r, stamp := BellmanFordShortestPath(g, s);
    } else {
      r, stamp := DjikstraShortestPath(g, s);
      NonNegativeNoCycle(g, s);
    }
  }

  /**
   * With no negative edge both algorithms succeed from a vertex of the
   * graph and compute the same distances.
   */
  method DijkstraAgreesWithBellmanFord(g: Graph, s: VertexName)
    returns (dijkstra: Result<(Distances, Predecessors)>, bellmanFord: Result<(Distances, Predecessors)>)
    requires Valid(g) && IsVertex(g, s) && NonNegative(g)
    ensures dijkstra.Ok? && bellmanFord.Ok? && dijkstra.value.0 == bellmanFord.value.0
  {
    ghost var stamp1, stamp2: Stamps;
    dijkstra, stamp1 := DjikstraShortestPath(g, s);
    NonNegativeNoCycle(g, s);
    bellmanFord, stamp2 := BellmanFordShortestPath(g, s);
    ShortestUnique(g, s, dijkstra.value.0, bellmanFord.value.0);
  }

  /** Every vertex with a distance is a vertex of the graph. */
  lemma AchievedInGraph(g: Graph, s: VertexName, d: Distances)
    requires Valid(g) && Achieved(g, s, d)
    ensures d.Keys <= VertexSet(g)
  {
    forall v | v in d ensures v in VertexSet(g) {
      assert HasWalkOfWeight(g, s, v, d[v]);
      var p :| IsWalk(g, p) && p[0] == s && p[|p| - 1] == v && PathWeight(g, p) == d[v];
      WalkVertices(g, p);
      assert p[|p| - 1] in Elems(p);
    }
  }

  /** The walk the path-following loop has traced back from t to current. */
  ghost predicate TracedBack(g: Graph, d: Distances, t: VertexName, current: VertexName, walk: seq<VertexName>,
                             path: seq<VertexName>) {
    && current in d && t in d
    && IsWalk(g, walk) && walk[0] == current && walk[|walk| - 1] == t
    && PathWeight(g, walk) == d[t] - d[current]
    && path + [current] == Rev(walk)
  }

  /** One step back along the predecessor link of current. */
  lemma TraceStep(g: Graph, s: VertexName, d: Distances, pred: Predecessors, stamp: Stamps, t: VertexName,
                  current: VertexName, walk: seq<VertexName>, path: seq<VertexName>)
    requires SearchResult(g, s, d, pred, stamp) && d.Keys <= VertexSet(g)
    requires TracedBack(g, d, t, current, walk, path) && current != s
    ensures current in pred && current in stamp && pred[current] in stamp && stamp[pred[current]] < stamp[current]
    ensures TracedBack(g, d, t, pred[current], [pred[current]] + walk, path + [current])
  {
    var next := pred[current];
    WalkCons(g, next, walk);
    RevCons(next, walk);
    assert ([next] + walk)[1..] == walk;
  }

  /** path is a walk from s to t weighing weight, and no walk from s to t weighs less. */
  ghost predicate LeastWalk(g: Graph, s: VertexName, t: VertexName, path: seq<VertexName>, weight: int) {
    && IsWalk(g, path) && path[0] == s && path[|path| - 1] == t && PathWeight(g, path) == weight
    && forall p {:trigger IsWalk(g, p)} :: IsWalk(g, p) && p[0] == s && p[|p| - 1] == t ==> weight <= PathWeight(g, p)
  }

  /** Back at the source: the traced walk is a least one. */
  lemma TraceDone(g: Graph, s: VertexName, d: Distances, pred: Predecessors, stamp: Stamps, t: VertexName,
                  walk: seq<VertexName>, path: seq<VertexName>)
    requires SearchResult(g, s, d, pred, stamp)
    requires TracedBack(g, d, t, s, walk, path)
    ensures Rev(path + [s]) == walk
    ensures LeastWalk(g, s, t, walk, d[t])
  {
    RevRev(walk);
  }

  /**
   * ShortestPath: the destination is checked first, then the source; a
   * negative cycle reachable from the source is an error, an unreachable
   * destination is NoPath, and otherwise the path is a walk from the source
   * to the destination whose weight is the one reported and is the least of
   * any such walk.
   */
  method ShortestPath(g: Graph, s: VertexName, t: VertexName) returns (r: Result<(seq<VertexName>, int)>)
    requires Valid(g)
    ensures !IsVertex(g, t) ==> r == Err(DestinationNotInGraph)
    ensures IsVertex(g, t) && !IsVertex(g, s) ==> r == Err(SourceNotInGraph)
    ensures IsVertex(g, t) && IsVertex(g, s) ==> (r == Err(NegativeCycle) <==> NegativeCycleFrom(g, s))
    ensures IsVertex(g, t) && IsVertex(g, s) && !NegativeCycleFrom(g, s) ==> (r == Err(NoPath) <==> !Reachable(g, s, t))
    ensures IsVertex(g, t) && IsVertex(g, s) && !NegativeCycleFrom(g, s) && Reachable(g, s, t) ==> r.Ok?
    ensures r.Ok? ==> LeastWalk(g, s, t, r.value.0, r.value.1)
  {
    if !IsVertex(g, t) {
      return Err(DestinationNotInGraph);
    }
    var all, stamp := ShortestPathsAllVertices(g, s);
    if all.Err? {
      return Err(all.error);
    }
    var (distances, predecessors) := all.value;
    ShortestKeys(g, s, distances, t);
    if t !in distances {
      return Err(NoPath);
    }
    var pathWeight := distances[t];
    AchievedInGraph(g, s, distances);
    var path: seq<VertexName> := [];
    var current := t;
    ghost var walk: seq<VertexName> := [t];
    assert Rev(walk) == [t];
    while current != s
      invariant TracedBack(g, distances, t, current, walk, path) && current in stamp
      decreases stamp[current]
    {
      TraceStep(g, s, distances, predecessors, stamp, t, current, walk, path);
      walk := [predecessors[current]] + walk;
      path := path + [current];
      current := predecessors[current];
    }
    TraceDone(g, s, distances, predecessors, stamp, t, walk, path);
    path := path + [s];
    path := Rev(path);
    return Ok((path, pathWeight));
  }
}
