/**
 * The state Dijkstra and Bellman-Ford share: a distances map and a
 * predecessors map, both written only by a relaxation step.  A step that
 * improves the target of edge u -> v sets distances[v] to
 * distances[u] + weight and predecessors[v] to u.  Each ghost stamp records
 * when a distance was last written, counted in relaxations; it is what makes
 * following predecessors terminate once no edge can be improved.
 */
module Relaxation {
  import opened Graphs
  import opened Walks

  type Predecessors = map<VertexName, VertexName>
  type Stamps = map<VertexName, nat>

  /** Every predecessor link is an edge between vertices with distances, and it never improves its target. */
  ghost predicate PredEdges(g: Graph, d: Distances, pred: Predecessors) {
    forall v :: v in pred ==>
      && v in d && pred[v] in d && v in Succ(g, pred[v])
      && d[pred[v]] + EdgeWeight(g, pred[v], v) <= d[v]
  }

  /** A link either points at a distance written earlier, or could not be taken again with equality. */
  ghost predicate Stamped(g: Graph, d: Distances, pred: Predecessors, stamp: Stamps) {
    forall v :: v in pred ==>
      && v in d && pred[v] in d && v in stamp && pred[v] in stamp
      && (stamp[pred[v]] < stamp[v] || d[pred[v]] + EdgeWeight(g, pred[v], v) < d[v])
  }

  /** What every relaxation step keeps. */
  ghost predicate RelaxInv(g: Graph, s: VertexName, d: Distances, pred: Predecessors, stamp: Stamps, clock: nat) {
    && s in d && d[s] <= 0
    && d.Keys <= VertexSet(g)
    && pred.Keys <= d.Keys && d.Keys <= pred.Keys + {s}
    && stamp.Keys == d.Keys && (forall v :: v in stamp ==> stamp[v] < clock)
    && PredEdges(g, d, pred)
    && Stamped(g, d, pred, stamp)
    && Achieved(g, s, d)
  }

  /** The distance the edge offers its target: its source's distance plus its weight. */
  function Through(d: Distances, e: Edge): int
    requires e.vertexOut in d
  {
    d[e.vertexOut] + e.weight
  }

  /** The edge can improve its target: its source has a distance and the target none or a larger one. */
  predicate Improves(d: Distances, e: Edge) {
    e.vertexOut in d && (e.vertexIn !in d || d[e.vertexOut] + e.weight < d[e.vertexIn])
  }

  /**
   * d' and pred' are d and pred after relaxing e: when e improves its
   * target, the target gets the distance through e and e's source as its
   * predecessor; otherwise nothing changes.
   */
  predicate EdgeRelaxed(d: Distances, pred: Predecessors, e: Edge, d': Distances, pred': Predecessors) {
    if Improves(d, e) then
      d' == d[e.vertexIn := Through(d, e)] && pred' == pred[e.vertexIn := e.vertexOut]
    else
      d' == d && pred' == pred
  }

  lemma RelaxStart(g: Graph, s: VertexName)
    requires s in VertexSet(g)
    ensures RelaxInv(g, s, map[s := 0], map[], map[s := 0], 1)
  {
    assert IsWalk(g, [s]);
  }

  /** The key sets and the source distance after a step. */
  lemma RelaxKeys(g: Graph, s: VertexName, d: Distances, pred: Predecessors, stamp: Stamps, clock: nat, e: Edge, x: int,
                  d': Distances, pred': Predecessors, stamp': Stamps)
    requires EndpointsExist(g) && UniquePairs(g.edges) && RelaxInv(g, s, d, pred, stamp, clock)
    requires e in g.edges && Improves(d, e)
    requires x == d[e.vertexOut] + e.weight && d' == d[e.vertexIn := x]
    requires pred' == pred[e.vertexIn := e.vertexOut]
    requires stamp' == stamp[e.vertexIn := clock]
    ensures s in d' && d'[s] <= 0
    ensures d'.Keys <= VertexSet(g)
    ensures pred'.Keys <= d'.Keys && d'.Keys <= pred'.Keys + {s}
    ensures stamp'.Keys == d'.Keys && (forall v :: v in stamp' ==> stamp'[v] < clock + 1)
  {
  }

  /** The link of y after a step: the new link is tight, the others lose no slack. */
  lemma RelaxLink(g: Graph, d: Distances, pred: Predecessors, stamp: Stamps, clock: nat, e: Edge, x: int,
                  d': Distances, pred': Predecessors, stamp': Stamps, y: VertexName)
    requires EndpointsExist(g) && UniquePairs(g.edges) && PredEdges(g, d, pred) && Stamped(g, d, pred, stamp)
    requires e.vertexOut in stamp && stamp[e.vertexOut] < clock
    requires e in g.edges && Improves(d, e)
    requires x == d[e.vertexOut] + e.weight && d' == d[e.vertexIn := x]
    requires pred' == pred[e.vertexIn := e.vertexOut]
    requires stamp' == stamp[e.vertexIn := clock]
    requires y in pred'
    ensures y in d' && pred'[y] in d' && y in Succ(g, pred'[y])
    ensures d'[pred'[y]] + EdgeWeight(g, pred'[y], y) <= d'[y]
    ensures y in stamp' && pred'[y] in stamp'
    ensures stamp'[pred'[y]] < stamp'[y] || d'[pred'[y]] + EdgeWeight(g, pred'[y], y) < d'[y]
  {
    var u, v := e.vertexOut, e.vertexIn;
    if y == v {
      GetEdgeOfEdge(g, e);
    } else {
      assert pred'[y] == pred[y] && d'[y] == d[y] && stamp'[y] == stamp[y];
      if pred[y] == v {
        assert d'[v] < d[v];
      } else {
        assert d'[pred[y]] == d[pred[y]] && stamp'[pred[y]] == stamp[pred[y]];
      }
    }
  }

  lemma RelaxLinks(g: Graph, s: VertexName, d: Distances, pred: Predecessors, stamp: Stamps, clock: nat, e: Edge, x: int,
                   d': Distances, pred': Predecessors, stamp': Stamps)
    requires EndpointsExist(g) && UniquePairs(g.edges) && RelaxInv(g, s, d, pred, stamp, clock)
    requires e in g.edges && Improves(d, e)
    requires x == d[e.vertexOut] + e.weight && d' == d[e.vertexIn := x]
    requires pred' == pred[e.vertexIn := e.vertexOut]
    requires stamp' == stamp[e.vertexIn := clock]
    ensures PredEdges(g, d', pred')
    ensures Stamped(g, d', pred', stamp')
  {
    forall y | y in pred'
      ensures y in d' && pred'[y] in d' && y in Succ(g, pred'[y])
      ensures d'[pred'[y]] + EdgeWeight(g, pred'[y], y) <= d'[y]
      ensures y in stamp' && pred'[y] in stamp'
      ensures stamp'[pred'[y]] < stamp'[y] || d'[pred'[y]] + EdgeWeight(g, pred'[y], y) < d'[y]
    {
      RelaxLink(g, d, pred, stamp, clock, e, x, d', pred', stamp', y);
    }
  }

  /** After a step the new distance of the target is the weight of a walk through the source. */
  lemma RelaxWalks(g: Graph, s: VertexName, d: Distances, e: Edge, x: int, d': Distances)
    requires EndpointsExist(g) && UniquePairs(g.edges) && Achieved(g, s, d)
    requires e in g.edges && e.vertexOut in d
    requires x == d[e.vertexOut] + e.weight && d' == d[e.vertexIn := x]
    ensures Achieved(g, s, d')
  {
    var u, v := e.vertexOut, e.vertexIn;
    var p :| IsWalk(g, p) && p[0] == s && p[|p| - 1] == u && PathWeight(g, p) == d[u];
    WalkSnoc(g, p, v);
    PathWeightSnoc(g, p, v);
    GetEdgeOfEdge(g, e);
    assert (p + [v])[0] == s;
    assert HasWalkOfWeight(g, s, v, d'[v]);
  }

  /** A step gives the target the new distance and raises no distance. */
  lemma RelaxLowers(d: Distances, e: Edge, x: int, d': Distances)
    requires Improves(d, e)
    requires x == d[e.vertexOut] + e.weight && d' == d[e.vertexIn := x]
    ensures d.Keys <= d'.Keys && forall y :: y in d ==> d'[y] <= d[y]
    ensures e.vertexIn in d' && d'[e.vertexIn] == x
  {
  }

  /** One relaxation step keeps RelaxInv and advances the clock. */
  lemma RelaxStep(g: Graph, s: VertexName, d: Distances, pred: Predecessors, stamp: Stamps, clock: nat, e: Edge, x: int,
                  d': Distances, pred': Predecessors, stamp': Stamps)
    requires EndpointsExist(g) && UniquePairs(g.edges) && RelaxInv(g, s, d, pred, stamp, clock)
    requires e in g.edges && Improves(d, e)
    requires x == d[e.vertexOut] + e.weight && d' == d[e.vertexIn := x]
    requires pred' == pred[e.vertexIn := e.vertexOut]
    requires stamp' == stamp[e.vertexIn := clock]
    ensures RelaxInv(g, s, d', pred', stamp', clock + 1)
  {
    RelaxKeys(g, s, d, pred, stamp, clock, e, x, d', pred', stamp');
    RelaxLinks(g, s, d, pred, stamp, clock, e, x, d', pred', stamp');
    RelaxWalks(g, s, d, e, x, d');
  }

  /**
   * What both algorithms deliver when they succeed: exact distances, the
   * source at distance 0, and a predecessor tree in which every link is a
   * tight edge pointing at an earlier write.
   */
  ghost predicate PredTree(g: Graph, s: VertexName, d: Distances, pred: Predecessors, stamp: Stamps) {
    && pred.Keys <= d.Keys && d.Keys <= pred.Keys + {s}
    && stamp.Keys == d.Keys
    && forall v :: v in pred ==>
         && v in d && pred[v] in d && v in Succ(g, pred[v])
         && d[v] == d[pred[v]] + EdgeWeight(g, pred[v], v)
         && v in stamp && pred[v] in stamp && stamp[pred[v]] < stamp[v]
  }

  ghost predicate SearchResult(g: Graph, s: VertexName, d: Distances, pred: Predecessors, stamp: Stamps) {
    && ShortestDistances(g, s, d)
    && s in d && d[s] == 0
    && PredTree(g, s, d, pred, stamp)
  }

  /** Once no link can be improved, the slack of every link is zero and its stamp order is strict. */
  lemma Tighten(g: Graph, s: VertexName, d: Distances, pred: Predecessors, stamp: Stamps, clock: nat)
    requires Valid(g) && RelaxInv(g, s, d, pred, stamp, clock) && RelaxedAmongReached(g, d)
    ensures PredTree(g, s, d, pred, stamp)
  {
    forall v | v in pred
      ensures d[v] == d[pred[v]] + EdgeWeight(g, pred[v], v) && stamp[pred[v]] < stamp[v]
    {
      var e := EdgeWeightOf(g, pred[v], v);
    }
  }

  /** A relaxed final state is a search result, and s reaches no negative cycle. */
  lemma RelaxedResult(g: Graph, s: VertexName, d: Distances, pred: Predecessors, stamp: Stamps, clock: nat)
    requires Valid(g) && RelaxInv(g, s, d, pred, stamp, clock) && Relaxed(g, d)
    ensures SearchResult(g, s, d, pred, stamp)
    ensures !NegativeCycleFrom(g, s)
  {
    Tighten(g, s, d, pred, stamp, clock);
    RelaxedLowerBounds(g, s, d);
    RelaxedSourceZero(g, s, d);
    RelaxedNoNegativeCycle(g, s, d);
  }
}
