/**
 * BellmanFordShortestPath: |V| - 1 passes over all edges in their stored
 * order, relaxing every edge whose source has a distance, then one more
 * pass that reports a negative cycle when an edge between two vertices with
 * distances can still be improved.  The proof follows the classical
 * argument: after pass k every walk from the source with at most k + 1
 * vertices is bounded by the distance of its last vertex.
 */
module BellmanFord {
  import opened Seqs
  import opened Wrappers
  import opened Graphs
  import opened Walks
  import opened Relaxation

  /** Every walk from s with at most k edges ends at a vertex with a distance no larger than its weight. */
  ghost predicate BoundedWalks(g: Graph, s: VertexName, d: Distances, k: nat) {
    forall p {:trigger IsWalk(g, p)} :: IsWalk(g, p) && p[0] == s && |p| <= k + 1 ==>
      p[|p| - 1] in d && d[p[|p| - 1]] <= PathWeight(g, p)
  }

  /** During pass k + 1: the walks with k + 1 edges whose last edge is among the first j are bounded. */
  ghost predicate PassBounded(g: Graph, s: VertexName, d: Distances, k: nat, j: nat) {
    forall p, m {:trigger IsWalk(g, p), g.edges[m]} ::
      && IsWalk(g, p) && p[0] == s && |p| == k + 2
      && 0 <= m < j && m < |g.edges| && g.edges[m].vertexOut == p[k] && g.edges[m].vertexIn == p[k + 1]
      ==> p[k + 1] in d && d[p[k + 1]] <= PathWeight(g, p)
  }

  /** The invariant of a pass: the relaxation state, the bounds of the previous passes, and those of this one so far. */
  ghost predicate PassInv(g: Graph, s: VertexName, d: Distances, pred: Predecessors, stamp: Stamps, clock: nat,
                          k: nat, j: nat) {
    RelaxInv(g, s, d, pred, stamp, clock) && BoundedWalks(g, s, d, k) && PassBounded(g, s, d, k, j)
  }

  lemma BoundedStart(g: Graph, s: VertexName)
    ensures BoundedWalks(g, s, map[s := 0], 0)
  {
  }

  /** Distances that only go down keep every bound. */
  lemma BoundedLower(g: Graph, s: VertexName, d: Distances, d': Distances, k: nat)
    requires BoundedWalks(g, s, d, k)
    requires d.Keys <= d'.Keys && forall x :: x in d ==> d'[x] <= d[x]
    ensures BoundedWalks(g, s, d', k)
  {
  }

  /**
   * Visiting edge j of pass k + 1: whatever happens to the target, if the
   * source of the edge has a distance the target ends up with one no larger
   * than the source's plus the weight.
   */
  lemma PassEdge(g: Graph, s: VertexName, d: Distances, d': Distances, k: nat, j: nat)
    requires EndpointsExist(g) && UniquePairs(g.edges)
    requires BoundedWalks(g, s, d, k) && PassBounded(g, s, d, k, j) && j < |g.edges|
    requires d.Keys <= d'.Keys && forall x :: x in d ==> d'[x] <= d[x]
    requires g.edges[j].vertexOut in d ==>
      g.edges[j].vertexIn in d' && d'[g.edges[j].vertexIn] <= d[g.edges[j].vertexOut] + g.edges[j].weight
    ensures PassBounded(g, s, d', k, j + 1)
  {
    forall p, m | && IsWalk(g, p) && p[0] == s && |p| == k + 2
                  && 0 <= m < j + 1 && m < |g.edges| && g.edges[m].vertexOut == p[k] && g.edges[m].vertexIn == p[k + 1]
      ensures p[k + 1] in d' && d'[p[k + 1]] <= PathWeight(g, p)
    {
      if m == j {
        var e := g.edges[j];
        WalkPrefix(g, p, k + 1);
        var pre := p[..k + 1];
        assert pre[0] == s && pre[|pre| - 1] == e.vertexOut;
        assert p == pre + [p[k + 1]];
        PathWeightSnoc(g, pre, p[k + 1]);
        GetEdgeOfEdge(g, e);
      }
    }
  }

  lemma PassStart(g: Graph, s: VertexName, d: Distances, pred: Predecessors, stamp: Stamps, clock: nat, k: nat)
    requires RelaxInv(g, s, d, pred, stamp, clock) && BoundedWalks(g, s, d, k)
    ensures PassInv(g, s, d, pred, stamp, clock, k, 0)
  {
  }

  /** Edge j of the pass changes nothing: its source has no distance or it does not improve its target. */
  lemma PassSkip(g: Graph, s: VertexName, d: Distances, pred: Predecessors, stamp: Stamps, clock: nat, k: nat, j: nat)
    requires EndpointsExist(g) && UniquePairs(g.edges)
    requires PassInv(g, s, d, pred, stamp, clock, k, j) && j < |g.edges| && !Improves(d, g.edges[j])
    ensures PassInv(g, s, d, pred, stamp, clock, k, j + 1)
  {
    PassEdge(g, s, d, d, k, j);
  }

  /** Edge j of the pass improves its target: the relaxation keeps every invariant of the pass. */
  lemma PassRelax(g: Graph, s: VertexName, d: Distances, pred: Predecessors, stamp: Stamps, clock: nat, k: nat, j: nat,
                  e: Edge, x: int, d': Distances, pred': Predecessors, stamp': Stamps)
    requires EndpointsExist(g) && UniquePairs(g.edges) && PassInv(g, s, d, pred, stamp, clock, k, j) && j < |g.edges|
    requires e == g.edges[j] && Improves(d, e)
    requires x == d[e.vertexOut] + e.weight && d' == d[e.vertexIn := x]
    requires pred' == pred[e.vertexIn := e.vertexOut]
    requires stamp' == stamp[e.vertexIn := clock]
    ensures PassInv(g, s, d', pred', stamp', clock + 1, k, j + 1)
  {
    RelaxLowers(d, e, x, d');
    PassEdge(g, s, d, d', k, j);
    BoundedLower(g, s, d, d', k);
    RelaxStep(g, s, d, pred, stamp, clock, e, x, d', pred', stamp');
  }

  /** The end of pass k + 1: every walk with k + 1 edges has its last edge somewhere in the list. */
  lemma PassEnd(g: Graph, s: VertexName, d: Distances, k: nat)
    requires BoundedWalks(g, s, d, k) && PassBounded(g, s, d, k, |g.edges|)
    ensures BoundedWalks(g, s, d, k + 1)
  {
    forall p | IsWalk(g, p) && p[0] == s && |p| <= k + 2 ensures p[|p| - 1] in d && d[p[|p| - 1]] <= PathWeight(g, p) {
      if |p| == k + 2 {
        assert p[k + 1] in Succ(g, p[k]);
        var e :| e in g.edges && e.vertexOut == p[k] && e.vertexIn == p[k + 1];
        var m :| 0 <= m < |g.edges| && g.edges[m] == e;
      }
    }
  }

  /** After |V| - 1 passes every edge leaving a vertex with a distance leads to a vertex with one. */
  lemma BfClosed(g: Graph, s: VertexName, d: Distances, k: nat)
    requires Valid(g) && Achieved(g, s, d) && BoundedWalks(g, s, d, k) && |VertexSet(g)| <= k + 1
    ensures forall e :: e in g.edges && e.vertexOut in d ==> e.vertexIn in d
  {
    forall e | e in g.edges && e.vertexOut in d ensures e.vertexIn in d {
      assert HasWalkOfWeight(g, s, e.vertexOut, d[e.vertexOut]);
      var p :| IsWalk(g, p) && p[0] == s && p[|p| - 1] == e.vertexOut && PathWeight(g, p) == d[e.vertexOut];
      WalkSnoc(g, p, e.vertexIn);
      var q := ShortenWalk(g, p + [e.vertexIn]);
      SimpleWalkLength(g, q);
    }
  }

  /** After |V| - 1 passes, with no negative cycle reachable from s, no edge can be improved. */
  lemma BfRelaxed(g: Graph, s: VertexName, d: Distances, k: nat)
    requires Valid(g) && Achieved(g, s, d) && BoundedWalks(g, s, d, k) && |VertexSet(g)| <= k + 1
    ensures !NegativeCycleFrom(g, s) ==> Relaxed(g, d)
  {
    if !NegativeCycleFrom(g, s) {
      forall e | e in g.edges && e.vertexOut in d ensures e.vertexIn in d && d[e.vertexIn] <= d[e.vertexOut] + e.weight {
        assert HasWalkOfWeight(g, s, e.vertexOut, d[e.vertexOut]);
        var p :| IsWalk(g, p) && p[0] == s && p[|p| - 1] == e.vertexOut && PathWeight(g, p) == d[e.vertexOut];
        WalkSnoc(g, p, e.vertexIn);
        PathWeightSnoc(g, p, e.vertexIn);
        GetEdgeOfEdge(g, e);
        assert (p + [e.vertexIn])[0] == s;
        var q := ShortenWalk(g, p + [e.vertexIn]);
        SimpleWalkLength(g, q);
      }
    }
  }

  /** The final pass over the edges: is some edge between two vertices with distances still improvable? */
  method NegativeCycleCheck(g: Graph, d: Distances) returns (found: bool)
    ensures found <==> !RelaxedAmongReached(g, d)
  {
    for j := 0 to |g.edges|
      invariant forall k :: 0 <= k < j && g.edges[k].vertexOut in d && g.edges[k].vertexIn in d ==>
        d[g.edges[k].vertexIn] <= d[g.edges[k].vertexOut] + g.edges[k].weight
    {
      var edge := g.edges[j];
      if edge.vertexOut !in d || edge.vertexIn !in d {
        continue;
      }
      if d[edge.vertexOut] + edge.weight < d[edge.vertexIn] {
        return true;
      }
    }
    forall e | e in g.edges && e.vertexOut in d && e.vertexIn in d ensures d[e.vertexIn] <= d[e.vertexOut] + e.weight {
      var k :| 0 <= k < |g.edges| && g.edges[k] == e;
    }
    return false;
  }

  /**
   * The body of the inner loop for edge j: skipped when its source has no
   * distance, relaxed when it improves its target, and otherwise left alone
   * (the `continue` and the improvement test together are Improves).
   */
  method RelaxEdge(g: Graph, s: VertexName, d: Distances, pred: Predecessors, ghost stamp: Stamps, ghost clock: nat,
                   ghost k: nat, j: nat)
    returns (distances: Distances, predecessors: Predecessors, ghost stamp': Stamps, ghost clock': nat)
    requires EndpointsExist(g) && UniquePairs(g.edges) && PassInv(g, s, d, pred, stamp, clock, k, j) && j < |g.edges|
    ensures PassInv(g, s, distances, predecessors, stamp', clock', k, j + 1)
    ensures EdgeRelaxed(d, pred, g.edges[j], distances, predecessors)
  {
    var edge := g.edges[j];
    if Improves(d, edge) {
      var newDistance := Through(d, edge);
      distances := d[edge.vertexIn := newDistance];
      predecessors := pred[edge.vertexIn := edge.vertexOut];
      stamp' := stamp[edge.vertexIn := clock];
      clock' := clock + 1;
      PassRelax(g, s, d, pred, stamp, clock, k, j, edge, newDistance, distances, predecessors, stamp');
    } else {
      PassSkip(g, s, d, pred, stamp, clock, k, j);
      return d, pred, stamp, clock;
    }
  }

  /**
   * One pass of the outer loop: every edge in turn, in the order of the
   * list.  Pass k + 1 bounds every walk from s with k + 1 edges.
   */
  method RelaxAllEdges(g: Graph, s: VertexName, d: Distances, pred: Predecessors, ghost stamp: Stamps, ghost clock: nat,
                       ghost k: nat)
    returns (distances: Distances, predecessors: Predecessors, ghost stamp': Stamps, ghost clock': nat)
    requires EndpointsExist(g) && UniquePairs(g.edges) && RelaxInv(g, s, d, pred, stamp, clock) && BoundedWalks(g, s, d, k)
    ensures RelaxInv(g, s, distances, predecessors, stamp', clock')
    ensures BoundedWalks(g, s, distances, k + 1)
  {
    distances, predecessors, stamp', clock' := d, pred, stamp, clock;
    PassStart(g, s, d, pred, stamp, clock, k);
    for j := 0 to |g.edges|
      invariant PassInv(g, s, distances, predecessors, stamp', clock', k, j)
    {
      distances, predecessors, stamp', clock' := RelaxEdge(g, s, distances, predecessors, stamp', clock', k, j);
    }
    PassEnd(g, s, distances, k);
  }

  /**
   * BellmanFordShortestPath: the error is reported exactly when a negative
   * cycle is reachable from the source; otherwise the distances are the
   * least walk weights and the predecessors form a tree of tight edges.
   */
  method BellmanFordShortestPath(g: Graph, s: VertexName) returns (r: Result<(Distances, Predecessors)>, ghost stamp: Stamps)
    requires Valid(g)
    ensures !IsVertex(g, s) ==> r == Err(SourceNotInGraph)
    ensures IsVertex(g, s) ==> (r.Err? <==> NegativeCycleFrom(g, s))
    ensures IsVertex(g, s) && r.Err? ==> r.error == NegativeCycle
    ensures r.Ok? ==> SearchResult(g, s, r.value.0, r.value.1, stamp)
    ensures r.Ok? ==> RelaxedAmongReached(g, r.value.0)
  {
    stamp := map[];
    if !IsVertex(g, s) {
      return Err(SourceNotInGraph), stamp;
    }
    var distances: Distances := map[s := 0];
    var predecessors: Predecessors := map[];
    stamp := map[s := 0];
    ghost var clock: nat := 1;
    var n := |VertexSet(g)|;
    RelaxStart(g, s);
    BoundedStart(g, s);
    var i := 0;
    while i < n - 1
      invariant i == 0 || i <= n - 1
      invariant RelaxInv(g, s, distances, predecessors, stamp, clock)
      invariant BoundedWalks(g, s, distances, i)
    {
      distances, predecessors, stamp, clock := RelaxAllEdges(g, s, distances, predecessors, stamp, clock, i);
      i := i + 1;
    }
    assert n <= i + 1;
    BfRelaxed(g, s, distances, i);
    var found := NegativeCycleCheck(g, distances);
    if found {
      return Err(NegativeCycle), stamp;
    }
    BfClosed(g, s, distances, i);
    RelaxedResult(g, s, distances, predecessors, stamp, clock);
    return Ok((distances, predecessors)), stamp;
  }
}
