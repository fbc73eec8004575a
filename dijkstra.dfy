/**
 * DjikstraShortestPath: a priority queue of (vertex, priority) entries and
 * no set of finished vertices.  Each dequeued vertex relaxes all of its
 * out-edges from its current distance, and every improvement re-enqueues
 * the target, so stale entries are dequeued and scanned again.  Termination
 * rests on the weights being non-negative: each round either gives a new
 * vertex a distance, or lowers the sum of the distances, or shortens the
 * queue.
 */
module Dijkstra {
  import opened Seqs
  import opened Wrappers
  import opened Graphs
  import opened Walks
  import opened Relaxation

  /** A queue entry: the vertex and the priority it was enqueued with. */
  type Entry = (VertexName, int)

  /** The entry PriorityQueue.Dequeue removes: one of least priority (the first such). */
  function MinIndex(q: seq<Entry>): (i: nat)
    requires q != []
    ensures i < |q| && forall j :: 0 <= j < |q| ==> q[i].1 <= q[j].1
  {
    if |q| == 1 then 0
    else
      var k := MinIndex(q[1..]);
      if q[0].1 <= q[1 + k].1 then 0 else 1 + k
  }

  function Queued(q: seq<Entry>): set<VertexName> {
    set x | x in q :: x.0
  }

  /** The sum of the distances of the listed vertices; a vertex without a distance adds 0. */
  function Total(d: Distances, vs: seq<VertexName>): int {
    if vs == [] then 0 else Total(d, vs[..|vs| - 1]) + (if vs[|vs| - 1] in d then d[vs[|vs| - 1]] else 0)
  }

  lemma {:induction false} TotalNonNegative(d: Distances, vs: seq<VertexName>)
    requires forall v :: v in d ==> d[v] >= 0
    ensures Total(d, vs) >= 0
  {
    if vs != [] {
      TotalNonNegative(d, vs[..|vs| - 1]);
    }
  }

  /** Lowering one distance lowers the sum, strictly when the vertex is listed. */
  lemma {:induction false} TotalLower(d: Distances, vs: seq<VertexName>, v: VertexName, x: int)
    requires v in d && x <= d[v]
    ensures Total(d[v := x], vs) <= Total(d, vs)
    ensures v in vs && x < d[v] ==> Total(d[v := x], vs) < Total(d, vs)
  {
    if vs != [] {
      var init := vs[..|vs| - 1];
      TotalLower(d, init, v, x);
      if v in vs && v != vs[|vs| - 1] {
        assert vs == init + [vs[|vs| - 1]];
        assert v in init;
      }
    }
  }

  lemma NamesCover(g: Graph, v: VertexName)
    requires v in VertexSet(g)
    ensures v in Names(g)
  {
    var x :| x in g.vertices && x.name == v;
    var i :| 0 <= i < |g.vertices| && g.vertices[i] == x;
    assert Names(g)[i] == v;
  }

  /** Every out-edge of u leads to a vertex with a distance that the edge does not improve. */
  ghost predicate RelaxedOut(g: Graph, d: Distances, u: VertexName) {
    u in d && forall e :: e in g.edges && e.vertexOut == u ==> e.vertexIn in d && d[e.vertexIn] <= d[u] + e.weight
  }

  /** Distances are non-negative and every queued vertex has one. */
  ghost predicate ScanState(d: Distances, queue: seq<Entry>) {
    && (forall v :: v in d ==> d[v] >= 0)
    && Queued(queue) <= d.Keys
  }

  /** The outer loop: every vertex with a distance is still queued or has all its out-edges relaxed. */
  ghost predicate QueueInv(g: Graph, s: VertexName, d: Distances, pred: Predecessors, stamp: Stamps, clock: nat,
                           queue: seq<Entry>) {
    && RelaxInv(g, s, d, pred, stamp, clock)
    && ScanState(d, queue)
    && (forall u :: u in d ==> u in Queued(queue) || RelaxedOut(g, d, u))
  }

  /**
   * What the scan of the out-edges of a dequeued vertex keeps from the state
   * d0, q0 at its start: distances only go down, the vertex's own stays, and
   * every vertex whose distance changed is queued.
   */
  ghost predicate ScanTrack(vertex: VertexName, d0: Distances, q0: seq<Entry>, d: Distances, queue: seq<Entry>) {
    && vertex in d0 && d0.Keys <= d.Keys && d[vertex] == d0[vertex]
    && (forall x :: x in d0 ==> d[x] <= d0[x])
    && (forall x :: x in d && (x !in d0 || d[x] < d0[x]) ==> x in Queued(queue))
    && Queued(q0) <= Queued(queue)
  }

  /** What the scan has achieved after the first j out-edges. */
  ghost predicate ScanDoneUpTo(g: Graph, vertex: VertexName, es: seq<Edge>, j: nat, d0: Distances, q0: seq<Entry>,
                               d: Distances, queue: seq<Entry>) {
    && j <= |es| && vertex in d
    && (forall k :: 0 <= k < j ==> es[k].vertexIn in d && d[es[k].vertexIn] <= d[vertex] + es[k].weight)
    && (d.Keys == d0.Keys ==> Total(d, Names(g)) < Total(d0, Names(g)) || (d == d0 && queue == q0))
  }

  lemma ScanStart(g: Graph, s: VertexName, d: Distances, pred: Predecessors, stamp: Stamps, clock: nat,
                  q: seq<Entry>, i: nat, q0: seq<Entry>, es: seq<Edge>)
    requires QueueInv(g, s, d, pred, stamp, clock, q)
    requires i < |q| && q0 == q[..i] + q[i + 1..]
    ensures ScanState(d, q0)
    ensures ScanTrack(q[i].0, d, q0, d, q0)
    ensures ScanDoneUpTo(g, q[i].0, es, 0, d, q0, d, q0)
    ensures Queued(q) <= Queued(q0) + {q[i].0} && |q0| < |q|
  {
    assert q[i] in q;
    assert q == q[..i] + [q[i]] + q[i + 1..];
    forall x | x in Queued(q0) ensures x in Queued(q) {
      var y :| y in q0 && y.0 == x;
    }
    forall x | x in Queued(q) ensures x in Queued(q0) + {q[i].0} {
      var y :| y in q && y.0 == x;
      if y != q[i] {
        assert y in q0;
      }
    }
  }

  /** An out-edge that improves its target: the maps are updated and the target enqueued. */
  lemma ScanRelaxState(g: Graph, e: Edge, x: int, d: Distances, queue: seq<Entry>, d': Distances, queue': seq<Entry>)
    requires NonNegative(g) && ScanState(d, queue)
    requires e in g.edges && Improves(d, e)
    requires x == d[e.vertexOut] + e.weight && d' == d[e.vertexIn := x]
    requires queue' == queue + [(e.vertexIn, x)]
    ensures ScanState(d', queue')
  {
    QueuedSnoc(queue, (e.vertexIn, x));
  }

  lemma ScanRelaxTrack(g: Graph, vertex: VertexName, e: Edge, x: int, d0: Distances, q0: seq<Entry>,
                       d: Distances, queue: seq<Entry>, d': Distances, queue': seq<Entry>)
    requires NonNegative(g)
    requires ScanTrack(vertex, d0, q0, d, queue)
    requires e in g.edges && e.vertexOut == vertex && Improves(d, e)
    requires x == d[e.vertexOut] + e.weight && d' == d[e.vertexIn := x]
    requires queue' == queue + [(e.vertexIn, x)]
    ensures ScanTrack(vertex, d0, q0, d', queue')
  {
    QueuedSnoc(queue, (e.vertexIn, x));
  }

  lemma QueuedSnoc(queue: seq<Entry>, y: Entry)
    ensures Queued(queue + [y]) == Queued(queue) + {y.0}
  {
    forall v | v in Queued(queue + [y]) ensures v in Queued(queue) + {y.0} {
      var z :| z in queue + [y] && z.0 == v;
      if z != y {
        assert z in queue;
      }
    }
    forall v | v in Queued(queue) ensures v in Queued(queue + [y]) {
      var z :| z in queue && z.0 == v;
      assert z in queue + [y];
    }
    assert y in queue + [y];
  }

  lemma ScanRelaxDone(g: Graph, vertex: VertexName, es: seq<Edge>, j: nat, d0: Distances, q0: seq<Entry>,
                      d: Distances, queue: seq<Entry>, x: int, d': Distances, queue': seq<Entry>)
    requires EndpointsExist(g) && NonNegative(g)
    requires ScanDoneUpTo(g, vertex, es, j, d0, q0, d, queue)
    requires d0.Keys <= d.Keys && vertex in d0 && d[vertex] == d0[vertex]
    requires j < |es| && es[j] in g.edges && es[j].vertexOut == vertex && Improves(d, es[j])
    requires x == d[vertex] + es[j].weight && d' == d[es[j].vertexIn := x]
    ensures ScanDoneUpTo(g, vertex, es, j + 1, d0, q0, d', queue')
  {
    var e := es[j];
    assert e.vertexIn != vertex;
    if d'.Keys == d0.Keys {
      assert e.vertexIn in d;
      assert e.vertexIn in VertexSet(g);
      NamesCover(g, e.vertexIn);
      TotalLower(d, Names(g), e.vertexIn, x);
    }
  }

  /** An out-edge that does not improve its target changes nothing. */
  lemma ScanSkip(g: Graph, vertex: VertexName, es: seq<Edge>, j: nat, d0: Distances, q0: seq<Entry>,
                 d: Distances, queue: seq<Entry>)
    requires ScanDoneUpTo(g, vertex, es, j, d0, q0, d, queue)
    requires j < |es| && es[j].vertexOut == vertex && !Improves(d, es[j])
    ensures ScanDoneUpTo(g, vertex, es, j + 1, d0, q0, d, queue)
  {
  }

  /** After the scan every vertex with a distance is queued or relaxed, the dequeued one included. */
  lemma ScanRelaxedAll(g: Graph, vertex: VertexName, es: seq<Edge>, d0: Distances, q: seq<Entry>,
                       q0: seq<Entry>, d: Distances, queue: seq<Entry>)
    requires ScanTrack(vertex, d0, q0, d, queue)
    requires ScanDoneUpTo(g, vertex, es, |es|, d0, q0, d, queue)
    requires es == OutEdges(g, vertex)
    requires forall u :: u in d0 ==> u in Queued(q) || RelaxedOut(g, d0, u)
    requires Queued(q) <= Queued(q0) + {vertex}
    ensures forall u :: u in d ==> u in Queued(queue) || RelaxedOut(g, d, u)
  {
    forall u | u in d ensures u in Queued(queue) || RelaxedOut(g, d, u) {
      if u in d0 && d[u] == d0[u] && u !in Queued(queue) {
        if u == vertex {
          forall e | e in g.edges && e.vertexOut == u ensures e.vertexIn in d && d[e.vertexIn] <= d[u] + e.weight {
            assert e in es;
            var k :| 0 <= k < |es| && es[k] == e;
          }
        } else {
          assert u !in Queued(q);
          assert RelaxedOut(g, d0, u);
        }
      }
    }
  }

  /** The round made progress: a new vertex has a distance, or the sum fell, or the queue is shorter. */
  lemma ScanProgress(g: Graph, vertex: VertexName, es: seq<Edge>, d0: Distances, q: seq<Entry>,
                     q0: seq<Entry>, d: Distances, queue: seq<Entry>)
    requires (forall v :: v in d ==> d[v] >= 0) && (forall v :: v in d0 ==> d0[v] >= 0)
    requires d0.Keys <= d.Keys && d.Keys <= VertexSet(g)
    requires ScanDoneUpTo(g, vertex, es, |es|, d0, q0, d, queue)
    requires |q0| < |q|
    ensures Total(d, Names(g)) >= 0 && Total(d0, Names(g)) >= 0
    ensures |VertexSet(g) - d.Keys| < |VertexSet(g) - d0.Keys|
         || (|VertexSet(g) - d.Keys| == |VertexSet(g) - d0.Keys|
             && (Total(d, Names(g)) < Total(d0, Names(g))
                 || (Total(d, Names(g)) == Total(d0, Names(g)) && |queue| < |q|)))
  {
    TotalNonNegative(d, Names(g));
    TotalNonNegative(d0, Names(g));
    if d.Keys != d0.Keys {
      StrictSubsetCard(VertexSet(g) - d.Keys, VertexSet(g) - d0.Keys);
    }
  }

  /** The state of the inner loop after the first j out-edges of the dequeued vertex. */
  ghost predicate ScanInv(g: Graph, s: VertexName, vertex: VertexName, es: seq<Edge>, j: nat, d0: Distances,
                          q0: seq<Entry>, d: Distances, pred: Predecessors, stamp: Stamps, clock: nat,
                          queue: seq<Entry>) {
    && RelaxInv(g, s, d, pred, stamp, clock) && ScanState(d, queue)
    && ScanTrack(vertex, d0, q0, d, queue) && ScanDoneUpTo(g, vertex, es, j, d0, q0, d, queue)
  }

  /** queue' is queue with e's target appended at its distance through e, when e improves the target. */
  predicate Enqueues(d: Distances, queue: seq<Entry>, e: Edge, queue': seq<Entry>) {
    queue' == if Improves(d, e) then queue + [(e.vertexIn, Through(d, e))] else queue
  }

  /**
   * The body of the inner loop for out-edge j: relaxed from the vertex's
   * distance when it improves its target, which is then enqueued with its
   * new distance; left alone otherwise.
   */
  method RelaxOutEdge(g: Graph, s: VertexName, vertex: VertexName, es: seq<Edge>, j: nat, ghost d0: Distances,
                      ghost q0: seq<Entry>, d: Distances, pred: Predecessors, ghost stamp: Stamps, ghost clock: nat,
                      queue: seq<Entry>)
    returns (distances: Distances, predecessors: Predecessors, ghost stamp': Stamps, ghost clock': nat,
             queue': seq<Entry>)
    requires EndpointsExist(g) && UniquePairs(g.edges) && NonNegative(g)
    requires j < |es| && es[j] in g.edges && es[j].vertexOut == vertex
    requires ScanInv(g, s, vertex, es, j, d0, q0, d, pred, stamp, clock, queue)
    ensures ScanInv(g, s, vertex, es, j + 1, d0, q0, distances, predecessors, stamp', clock', queue')
    ensures EdgeRelaxed(d, pred, es[j], distances, predecessors) && Enqueues(d, queue, es[j], queue')
  {
    var edge := es[j];
    var newDistance := Through(d, edge);
    if edge.vertexIn !in d || newDistance < d[edge.vertexIn] {
      distances := d[edge.vertexIn := newDistance];
      predecessors := pred[edge.vertexIn := vertex];
      queue' := queue + [(edge.vertexIn, newDistance)];
      stamp' := stamp[edge.vertexIn := clock];
      clock' := clock + 1;
      ScanRelaxState(g, edge, newDistance, d, queue, distances, queue');
      ScanRelaxTrack(g, vertex, edge, newDistance, d0, q0, d, queue, distances, queue');
      ScanRelaxDone(g, vertex, es, j, d0, q0, d, queue, newDistance, distances, queue');
      RelaxStep(g, s, d, pred, stamp, clock, edge, newDistance, distances, predecessors, stamp');
    } else {
      ScanSkip(g, vertex, es, j, d0, q0, d, queue);
      return d, pred, stamp, clock, queue;
    }
  }

  /**
   * The inner loop of a round: every out-edge of the dequeued vertex, in
   * order.
   */
  method RelaxOutEdges(g: Graph, s: VertexName, vertex: VertexName, es: seq<Edge>, d: Distances, pred: Predecessors,
                       q0: seq<Entry>, ghost stamp0: Stamps, ghost clock0: nat)
    returns (distances: Distances, predecessors: Predecessors, queue: seq<Entry>, ghost stamp: Stamps, ghost clock: nat)
    requires EndpointsExist(g) && UniquePairs(g.edges) && NonNegative(g)
    requires forall e :: e in es ==> e in g.edges && e.vertexOut == vertex
    requires ScanInv(g, s, vertex, es, 0, d, q0, d, pred, stamp0, clock0, q0)
    ensures ScanInv(g, s, vertex, es, |es|, d, q0, distances, predecessors, stamp, clock, queue)
  {
    distances, predecessors, queue, stamp, clock := d, pred, q0, stamp0, clock0;
    for j := 0 to |es|
      invariant ScanInv(g, s, vertex, es, j, d, q0, distances, predecessors, stamp, clock, queue)
    {
      assert es[j] in es;
      distances, predecessors, stamp, clock, queue :=
        RelaxOutEdge(g, s, vertex, es, j, d, q0, distances, predecessors, stamp, clock, queue);
    }
  }

  /** DjikstraShortestPath; the ghost stamps say when each distance was last written. */
  method DjikstraShortestPath(g: Graph, s: VertexName) returns (r: Result<(Distances, Predecessors)>, ghost stamp: Stamps)
    requires Valid(g)
    ensures !IsVertex(g, s) ==> r == Err(SourceNotInGraph)
    ensures IsVertex(g, s) && !NonNegative(g) ==> r == Err(NegativeEdges)
    ensures IsVertex(g, s) && NonNegative(g) ==> r.Ok? && SearchResult(g, s, r.value.0, r.value.1, stamp)
    ensures r.Ok? ==> Relaxed(g, r.value.0)
  {
    stamp := map[];
    if !IsVertex(g, s) {
      return Err(SourceNotInGraph), stamp;
    }
    NegativeEdgesEmpty(g);
    if |NegativeEdgesOf(g.edges)| > 0 {
      return Err(NegativeEdges), stamp;
    }
    var queue: seq<Entry> := [(s, 0)];
    var distances: Distances := map[s := 0];
    var predecessors: Predecessors := map[];
    stamp := map[s := 0];
    ghost var clock: nat := 1;
    RelaxStart(g, s);
    assert Queued(queue) == {s} by {
      assert queue[0] in queue;
    }
    while queue != []
      invariant QueueInv(g, s, distances, predecessors, stamp, clock, queue)
      decreases |VertexSet(g) - distances.Keys|, Total(distances, Names(g)), |queue|
    {
      var i := MinIndex(queue);
      var vertex := queue[i].0;
      ghost var d0, q := distances, queue;
      queue := queue[..i] + queue[i + 1..];
      ghost var q0 := queue;
      var es := OutEdges(g, vertex);
      ScanStart(g, s, distances, predecessors, stamp, clock, q, i, q0, es);
      distances, predecessors, queue, stamp, clock :=
        RelaxOutEdges(g, s, vertex, es, distances, predecessors, queue, stamp, clock);
      ScanRelaxedAll(g, vertex, es, d0, q, q0, distances, queue);
      ScanProgress(g, vertex, es, d0, q, q0, distances, queue);
    }
    assert Relaxed(g, distances) by {
      forall e | e in g.edges && e.vertexOut in distances
        ensures e.vertexIn in distances && distances[e.vertexIn] <= distances[e.vertexOut] + e.weight
      {
        assert RelaxedOut(g, distances, e.vertexOut);
      }
    }
    RelaxedResult(g, s, distances, predecessors, stamp, clock);
    return Ok((distances, predecessors)), stamp;
  }
}
