/**
 * Breadth-first traversal.  The single-source Bfs keeps a FIFO queue and a
 * visited dictionary; a vertex enters the dictionary (as OPENED) at the
 * moment it is enqueued, is reported through vertexAction when it is
 * dequeued and processed, after which every edge out of it is reported
 * through edgeAction and it is marked CLOSED.
 *
 * As written, the loop skips every dequeued vertex that is already in the
 * dictionary, which is every dequeued vertex: no callback ever fires, and
 * the all-vertices Bfs, which only shrinks its work set from inside the
 * vertex callback, never finishes.  Both are modelled as written and, next
 * to them, with the skip removed.
 */
module BreadthFirst {
  import opened Seqs
  import opened Wrappers
  import opened Graphs
  import opened DepthFirst

  datatype BfsEvent =
    | Visit(v: VertexName)  // vertexAction
    | Scan(e: Edge)         // edgeAction

  /** The vertices of the Visit events, in trace order. */
  function Visits(t: seq<BfsEvent>): seq<VertexName> {
    if t == [] then []
    else Visits(t[..|t| - 1]) + (if t[|t| - 1].Visit? then [t[|t| - 1].v] else [])
  }

  /** One edgeAction per edge, in the order of the list. */
  function Scans(es: seq<Edge>): (r: seq<BfsEvent>)
    ensures |r| == |es| && forall i :: 0 <= i < |es| ==> r[i] == Scan(es[i])
  {
    if es == [] then [] else Scans(es[..|es| - 1]) + [Scan(es[|es| - 1])]
  }

  /** What processing one dequeued vertex reports: the vertex, then all edges out of it. */
  function Report(g: Graph, v: VertexName): seq<BfsEvent> {
    [Visit(v)] + Scans(OutEdges(g, v))
  }

  /** The reports of a sequence of processed vertices. */
  function Reports(g: Graph, vs: seq<VertexName>): seq<BfsEvent> {
    if vs == [] then [] else Reports(g, vs[..|vs| - 1]) + Report(g, vs[|vs| - 1])
  }

  /** The out-neighbours not yet in the dictionary, in adjacency order (the Where(...).ToList() of the loop). */
  function Unvisited(adj: seq<VertexName>, m: Visited): (r: seq<VertexName>)
    ensures forall x :: x in r <==> x in adj && x !in m
  {
    if adj == [] then []
    else Unvisited(adj[..|adj| - 1], m) + (if adj[|adj| - 1] !in m then [adj[|adj| - 1]] else [])
  }

  /** Every vertex reachable from s. */
  ghost function ReachableFrom(g: Graph, s: VertexName): set<VertexName> {
    set v | v in VertexSet(g) && Reachable(g, s, v)
  }

  lemma {:induction false} VisitsConcat(a: seq<BfsEvent>, b: seq<BfsEvent>)
    ensures Visits(a + b) == Visits(a) + Visits(b)
  {
    if b == [] {
      assert a + b == a;
    } else {
      var c := b[..|b| - 1];
      assert (a + b)[..|a + b| - 1] == a + c;
      VisitsConcat(a, c);
    }
  }

  lemma {:induction false} VisitsScans(es: seq<Edge>)
    ensures Visits(Scans(es)) == []
  {
    if es != [] {
      var r := Scans(es);
      assert r[..|r| - 1] == Scans(es[..|es| - 1]);
      VisitsScans(es[..|es| - 1]);
    }
  }

  lemma VisitsReport(g: Graph, v: VertexName)
    ensures Visits(Report(g, v)) == [v]
  {
    VisitsConcat([Visit(v)], Scans(OutEdges(g, v)));
    VisitsScans(OutEdges(g, v));
    assert Visits([Visit(v)]) == Visits([]) + [v];
  }

  /** The processed vertices can be read back from their reports. */
  lemma {:induction false} VisitsReports(g: Graph, vs: seq<VertexName>)
    ensures Visits(Reports(g, vs)) == vs
  {
    if vs != [] {
      var ws, v := vs[..|vs| - 1], vs[|vs| - 1];
      assert Reports(g, vs) == Reports(g, ws) + Report(g, v);
      VisitsReports(g, ws);
      VisitsConcat(Reports(g, ws), Report(g, v));
      VisitsReport(g, v);
      InitLast(vs);
    }
  }

  lemma {:induction false} UnvisitedDistinct(adj: seq<VertexName>, m: Visited)
    requires Distinct(adj)
    ensures Distinct(Unvisited(adj, m))
  {
    if adj != [] {
      var a := adj[..|adj| - 1];
      var x := adj[|adj| - 1];
      assert adj == a + [x];
      DistinctConcat(a, [x]);
      UnvisitedDistinct(a, m);
      var tail := if x !in m then [x] else [];
      assert Elems(Unvisited(a, m)) !! Elems(tail) by {
        assert x !in Elems(a);
      }
      DistinctConcat(Unvisited(a, m), tail);
    }
  }

  /**
   * The ForEach of the loop body: every listed neighbour is enqueued and
   * added to the dictionary as OPENED.
   */
  method EnqueueAll(queue: seq<VertexName>, visited: Visited, batch: seq<VertexName>)
    returns (q: seq<VertexName>, m: Visited)
    ensures q == queue + batch
    ensures m.Keys == visited.Keys + Elems(batch)
    ensures forall k :: k in batch ==> m[k] == Opened
    ensures forall k :: k in visited && k !in batch ==> m[k] == visited[k]
  {
    q := queue;
    m := visited;
    for i := 0 to |batch|
      invariant q == queue + batch[..i]
      invariant m.Keys == visited.Keys + Elems(batch[..i])
      invariant forall k :: k in batch[..i] ==> m[k] == Opened
      invariant forall k :: k in visited && k !in batch[..i] ==> m[k] == visited[k]
    {
      assert batch[..i + 1] == batch[..i] + [batch[i]];
      q := q + [batch[i]];
      m := m[batch[i] := Opened];
    }
    assert batch[..|batch|] == batch;
  }

  /**
   * Bfs from a source AS WRITTEN: the dequeued vertex is skipped whenever it
   * is in the dictionary, and every enqueued vertex was put there when it was
   * enqueued, so the source is dequeued, skipped, and nothing is reported.
   */
  method BfsAsWritten(g: Graph, s: VertexName) returns (r: Result<seq<BfsEvent>>)
    ensures !IsVertex(g, s) ==> r == Err(SourceNotInGraph)
    ensures IsVertex(g, s) ==> r == Ok([])
  {
    var queue: seq<VertexName> := [];
    var visited: Visited := map[];
    var trace: seq<BfsEvent> := [];
    if !IsVertex(g, s) {
      return Err(SourceNotInGraph);
    }
    queue := queue + [s];
    visited := visited[s := Opened];
    while queue != []
      invariant forall v :: v in queue ==> v in visited
      invariant trace == []
      decreases |queue|
    {
      var vertex := queue[0];
      queue := queue[1..];
      if vertex in visited {
        continue;
      }
      var batch := Unvisited(OutAdjacentVertices(g, vertex), visited);
      queue, visited := EnqueueAll(queue, visited, batch);
      trace := trace + Report(g, vertex);
      visited := visited[vertex := Closed];
    }
    return Ok(trace);
  }

  /** `order` lists every vertex ever enqueued, the source first and each once; `done` is its processed prefix, `queue` the rest. */
  ghost predicate QueueOrder(s: VertexName, order: seq<VertexName>, done: seq<VertexName>, queue: seq<VertexName>) {
    && order == done + queue
    && |order| >= 1 && order[0] == s
    && Distinct(order)
  }

  /** The dictionary holds exactly the enqueued vertices, all of them vertices of g. */
  ghost predicate KeysEnqueued(g: Graph, visited: Visited, order: seq<VertexName>) {
    visited.Keys == Elems(order) && visited.Keys <= VertexSet(g)
  }

  /** Every processed vertex has all its out-neighbours among the keys. */
  ghost predicate DoneScanned(g: Graph, done: seq<VertexName>, keys: set<VertexName>) {
    forall u :: u in done ==> Succ(g, u) <= keys
  }

  /** Every key is reachable from s. */
  ghost predicate KeysReachable(g: Graph, s: VertexName, keys: set<VertexName>) {
    forall v :: v in keys ==> Reachable(g, s, v)
  }

  /** The state of the corrected loop between two dequeues. */
  ghost predicate BfsInv(g: Graph, s: VertexName, order: seq<VertexName>, done: seq<VertexName>,
                         queue: seq<VertexName>, visited: Visited, trace: seq<BfsEvent>) {
    && QueueOrder(s, order, done, queue)
    && KeysEnqueued(g, visited, order)
    && trace == Reports(g, done)
    && DoneScanned(g, done, visited.Keys)
    && KeysReachable(g, s, visited.Keys)
  }

  /** What a finished traversal from s reported. */
  ghost predicate BfsResult(g: Graph, s: VertexName, trace: seq<BfsEvent>) {
    && |Visits(trace)| >= 1 && Visits(trace)[0] == s
    && Distinct(Visits(trace))
    && Elems(Visits(trace)) == ReachableFrom(g, s)
    && trace == Reports(g, Visits(trace))
  }

  lemma BfsStart(g: Graph, s: VertexName)
    requires s in VertexSet(g)
    ensures BfsInv(g, s, [s], [], [s], map[s := Opened], [])
  {
    ReachableRefl(g, s);
    assert Elems([s]) == {s};
  }

  /** The neighbours a step enqueues: each unvisited out-neighbour of u, once. */
  lemma BatchFacts(g: Graph, u: VertexName, visited: Visited, batch: seq<VertexName>)
    requires EndpointsExist(g) && UniquePairs(g.edges)
    requires batch == Unvisited(OutAdjacentVertices(g, u), visited)
    ensures Distinct(batch)
    ensures Elems(batch) == Succ(g, u) - visited.Keys
    ensures Elems(batch) <= VertexSet(g)
  {
    OutAdjacentIsSucc(g, u);
    OutEdgesTargetsDistinct(g.edges, u);
    UnvisitedDistinct(OutAdjacentVertices(g, u), visited);
  }

  /**
   * Processing the head of the queue (its unvisited neighbours `batch` enqueued,
   * itself reported and closed) keeps the order of the queue, the keys and the
   * reports.
   */
  lemma BfsStepOrder(g: Graph, s: VertexName, order: seq<VertexName>, done: seq<VertexName>,
                     queue: seq<VertexName>, visited: Visited, trace: seq<BfsEvent>, batch: seq<VertexName>, m: Visited,
                     order': seq<VertexName>, done': seq<VertexName>, queue': seq<VertexName>, visited': Visited, trace': seq<BfsEvent>)
    requires queue != []
    requires QueueOrder(s, order, done, queue) && KeysEnqueued(g, visited, order) && trace == Reports(g, done)
    requires Distinct(batch) && Elems(batch) == Succ(g, queue[0]) - visited.Keys && Elems(batch) <= VertexSet(g)
    requires m.Keys == visited.Keys + Elems(batch)
    requires order' == order + batch && done' == done + [queue[0]] && queue' == queue[1..] + batch
    requires visited' == m[queue[0] := Closed] && trace' == trace + Report(g, queue[0])
    ensures QueueOrder(s, order', done', queue') && KeysEnqueued(g, visited', order') && trace' == Reports(g, done')
    ensures visited'.Keys == visited.Keys + Elems(batch)
  {
    StepQueueOrder(s, order, done, queue, batch);
    assert visited'.Keys == m.Keys;
    StepReports(g, done, queue[0]);
  }

  /** The same step keeps every processed vertex scanned and every key reachable, and shrinks the work left. */
  lemma BfsStepReach(g: Graph, s: VertexName, done: seq<VertexName>, queue: seq<VertexName>, visited: Visited,
                     batch: seq<VertexName>, done': seq<VertexName>, queue': seq<VertexName>, visited': Visited)
    requires queue != [] && queue[0] in visited
    requires DoneScanned(g, done, visited.Keys) && KeysReachable(g, s, visited.Keys)
    requires Distinct(batch) && Elems(batch) == Succ(g, queue[0]) - visited.Keys && Elems(batch) <= VertexSet(g)
    requires visited'.Keys == visited.Keys + Elems(batch)
    requires done' == done + [queue[0]] && queue' == queue[1..] + batch
    ensures DoneScanned(g, done', visited'.Keys) && KeysReachable(g, s, visited'.Keys)
    ensures |VertexSet(g) - visited'.Keys| + |queue'| < |VertexSet(g) - visited.Keys| + |queue|
  {
    StepScanned(g, done, queue[0], visited.Keys, visited'.Keys);
    StepReachable(g, s, queue[0], visited.Keys, visited'.Keys);
    StepCount(VertexSet(g), visited.Keys, Elems(batch), batch);
  }

  lemma StepQueueOrder(s: VertexName, order: seq<VertexName>, done: seq<VertexName>, queue: seq<VertexName>,
                       batch: seq<VertexName>)
    requires QueueOrder(s, order, done, queue) && queue != []
    requires Distinct(batch) && Elems(batch) !! Elems(order)
    ensures QueueOrder(s, order + batch, done + [queue[0]], queue[1..] + batch)
    ensures Elems(order + batch) == Elems(order) + Elems(batch)
    ensures queue[0] in Elems(order)
  {
    assert queue == [queue[0]] + queue[1..];
    DistinctConcat(order, batch);
    ElemsConcat(order, batch);
  }

  lemma StepScanned(g: Graph, done: seq<VertexName>, u: VertexName, keys: set<VertexName>, keys': set<VertexName>)
    requires DoneScanned(g, done, keys)
    requires keys <= keys' && Succ(g, u) <= keys'
    ensures DoneScanned(g, done + [u], keys')
  {
  }

  /** The new neighbours of a reachable vertex are reachable. */
  lemma StepReachable(g: Graph, s: VertexName, u: VertexName, keys: set<VertexName>, keys': set<VertexName>)
    requires u in keys && KeysReachable(g, s, keys)
    requires keys' == keys + (Succ(g, u) - keys)
    ensures KeysReachable(g, s, keys')
  {
    forall v | v in keys' ensures Reachable(g, s, v) {
      if v !in keys {
        ReachableStep(g, s, u, v);
      }
    }
  }

  lemma StepReports(g: Graph, done: seq<VertexName>, u: VertexName)
    ensures Reports(g, done + [u]) == Reports(g, done) + Report(g, u)
  {
    assert (done + [u])[..|done + [u]| - 1] == done;
  }

  lemma StepCount(vs: set<VertexName>, keys: set<VertexName>, added: set<VertexName>, batch: seq<VertexName>)
    requires added <= vs && added !! keys && Distinct(batch) && Elems(batch) == added
    ensures |vs - (keys + added)| + |batch| == |vs - keys|
  {
    DistinctCard(batch);
    assert vs - keys == (vs - (keys + added)) + added;
  }

  /** An empty queue: the processed vertices are exactly the reachable ones. */
  lemma BfsDone(g: Graph, s: VertexName, order: seq<VertexName>, done: seq<VertexName>,
                visited: Visited, trace: seq<BfsEvent>)
    requires Valid(g)
    requires BfsInv(g, s, order, done, [], visited, trace)
    ensures BfsResult(g, s, trace)
  {
    assert done == order;
    VisitsReports(g, done);
    forall v | v in ReachableFrom(g, s) ensures v in Elems(done) {
      var p :| IsWalk(g, p) && p[0] == s && p[|p| - 1] == v;
      ClosedSetContainsWalk(g, Elems(done), p);
    }
  }

  // ----- Breadth order -----

  /** Some walk from s to v has at most k edges. */
  ghost predicate WithinHops(g: Graph, s: VertexName, v: VertexName, k: nat) {
    exists p {:trigger IsWalk(g, p)} :: IsWalk(g, p) && p[0] == s && p[|p| - 1] == v && |p| <= k + 1
  }

  /** k is the least number of edges on a walk from s to v. */
  ghost predicate IsHops(g: Graph, s: VertexName, v: VertexName, k: nat) {
    && WithinHops(g, s, v, k)
    && forall p {:trigger IsWalk(g, p)} :: IsWalk(g, p) && p[0] == s && p[|p| - 1] == v ==> |p| >= k + 1
  }

  /** vs comes in breadth order: each vertex labelled with its least number of edges from s, the labels never decreasing. */
  ghost predicate BreadthOrder(g: Graph, s: VertexName, vs: seq<VertexName>, level: map<VertexName, nat>) {
    && (forall v :: v in vs ==> v in level && IsHops(g, s, v, level[v]))
    && (forall i, j :: 0 <= i < j < |vs| && vs[i] in level && vs[j] in level ==> level[vs[i]] <= level[vs[j]])
  }

  /**
   * The levels of the corrected loop: every enqueued vertex carries the
   * length of a walk from s, the levels never decrease along the enqueue
   * order and exceed the head's by at most one, and a processed vertex's
   * out-neighbours sit at most one level below it.
   */
  ghost predicate LevelInv(g: Graph, s: VertexName, order: seq<VertexName>, done: seq<VertexName>,
                           queue: seq<VertexName>, level: map<VertexName, nat>) {
    && level.Keys == Elems(order)
    && s in level && level[s] == 0
    && (forall v :: v in level ==> WithinHops(g, s, v, level[v]))
    && (forall i, j :: 0 <= i < j < |order| && order[i] in level && order[j] in level ==> level[order[i]] <= level[order[j]])
    && (queue != [] ==> queue[0] in level && forall v :: v in level ==> level[v] <= level[queue[0]] + 1)
    && NeighboursWithinOne(g, done, level)
  }

  /** Every vertex of done has a level, and its out-neighbours sit at most one level below it. */
  ghost predicate NeighboursWithinOne(g: Graph, done: seq<VertexName>, level: map<VertexName, nat>) {
    forall x :: x in done ==> x in level && forall w :: w in Succ(g, x) ==> w in level && level[w] <= level[x] + 1
  }

  /** The levels after the head u of the queue enqueues batch one level below it. */
  ghost function Deeper(level: map<VertexName, nat>, batch: seq<VertexName>, k: nat): map<VertexName, nat> {
    level + map b | b in batch :: k
  }

  lemma LevelStart(g: Graph, s: VertexName)
    requires s in VertexSet(g)
    ensures LevelInv(g, s, [s], [], [s], map[s := 0])
  {
    assert IsWalk(g, [s]);
    assert WithinHops(g, s, s, 0);
  }

  /** What Deeper does: the old levels stay, the batch gets level k. */
  lemma DeeperFacts(level: map<VertexName, nat>, batch: seq<VertexName>, k: nat)
    requires level.Keys !! Elems(batch)
    ensures Raised(level, batch, k, Deeper(level, batch, k))
  {
  }

  /** level' is level with every vertex of batch added at level k. */
  ghost predicate Raised(level: map<VertexName, nat>, batch: seq<VertexName>, k: nat, level': map<VertexName, nat>) {
    && level'.Keys == level.Keys + Elems(batch)
    && (forall v :: v in level ==> level'[v] == level[v])
    && (forall i :: 0 <= i < |batch| ==> level'[batch[i]] == k)
  }

  /** The new vertices: one edge beyond the walk that reaches u. */
  lemma DeeperHops(g: Graph, s: VertexName, u: VertexName, level: map<VertexName, nat>, batch: seq<VertexName>,
                   level': map<VertexName, nat>)
    requires u in level && WithinHops(g, s, u, level[u])
    requires forall v :: v in level ==> WithinHops(g, s, v, level[v])
    requires Elems(batch) <= Succ(g, u)
    requires Raised(level, batch, level[u] + 1, level')
    ensures forall v :: v in level' ==> WithinHops(g, s, v, level'[v])
  {
    forall v | v in level' ensures WithinHops(g, s, v, level'[v]) {
      if v !in level {
        var i :| 0 <= i < |batch| && batch[i] == v;
        var p :| IsWalk(g, p) && p[0] == s && p[|p| - 1] == u && |p| <= level[u] + 1;
        assert v in Succ(g, p[|p| - 1]);
        WalkSnoc(g, p, v);
        var q := p + [v];
        assert q[0] == s && q[|q| - 1] == v && |q| <= level'[v] + 1;
      }
    }
  }

  /** Appending batch at level[u] + 1 keeps the levels sorted along the enqueue order. */
  lemma DeeperSorted(order: seq<VertexName>, u: VertexName, level: map<VertexName, nat>, batch: seq<VertexName>,
                     level': map<VertexName, nat>)
    requires level.Keys == Elems(order) && u in level
    requires forall i, j :: 0 <= i < j < |order| && order[i] in level && order[j] in level ==> level[order[i]] <= level[order[j]]
    requires forall v :: v in level ==> level[v] <= level[u] + 1
    requires Raised(level, batch, level[u] + 1, level')
    ensures var o := order + batch;
      forall i, j :: 0 <= i < j < |o| && o[i] in level' && o[j] in level' ==> level'[o[i]] <= level'[o[j]]
  {
    var o := order + batch;
    forall i, j | 0 <= i < j < |o| && o[i] in level' && o[j] in level' ensures level'[o[i]] <= level'[o[j]] {
      if j < |order| {
        assert o[i] == order[i] && o[j] == order[j];
        assert order[i] in level && order[j] in level;
      } else if i < |order| {
        assert o[i] == order[i] && order[i] in level;
        assert o[j] == batch[j - |order|];
      } else {
        assert o[i] == batch[i - |order|] && o[j] == batch[j - |order|];
      }
    }
  }

  /** The new head sits no lower than u, so every level stays within one of it. */
  lemma DeeperFront(order: seq<VertexName>, done: seq<VertexName>, queue: seq<VertexName>,
                    level: map<VertexName, nat>, batch: seq<VertexName>, level': map<VertexName, nat>)
    requires order == done + queue && queue != [] && level.Keys == Elems(order)
    requires forall i, j :: 0 <= i < j < |order| && order[i] in level && order[j] in level ==> level[order[i]] <= level[order[j]]
    requires queue[0] in level && forall v :: v in level ==> level[v] <= level[queue[0]] + 1
    requires Raised(level, batch, level[queue[0]] + 1, level')
    ensures var q := queue[1..] + batch;
      q != [] ==> q[0] in level' && forall v :: v in level' ==> level'[v] <= level'[q[0]] + 1
  {
    var u, q := queue[0], queue[1..] + batch;
    if q != [] {
      if |queue| > 1 {
        assert q[0] == queue[1] && order[|done|] == u && order[|done| + 1] == q[0];
        assert q[0] in level;
      } else {
        assert q[0] == batch[0];
      }
      assert level'[q[0]] >= level[u];
    }
  }

  /** The processed vertices, u now among them, keep their out-neighbours within one level. */
  lemma DeeperScanned(g: Graph, done: seq<VertexName>, u: VertexName, level: map<VertexName, nat>,
                      keys: set<VertexName>, batch: seq<VertexName>, level': map<VertexName, nat>, done': seq<VertexName>)
    requires NeighboursWithinOne(g, done, level) && done' == done + [u]
    requires u in level && forall v :: v in level ==> level[v] <= level[u] + 1
    requires level.Keys == keys && Elems(batch) == Succ(g, u) - keys
    requires Raised(level, batch, level[u] + 1, level')
    ensures NeighboursWithinOne(g, done', level')
  {
    forall x | x in done' ensures x in level' && forall w :: w in Succ(g, x) ==> w in level' && level'[w] <= level'[x] + 1 {
      if x != u {
        assert x in done;
      }
      assert level'[x] == level[x];
      forall w | w in Succ(g, x) ensures w in level' && level'[w] <= level'[x] + 1 {
        if w in level {
          assert level'[w] == level[w];
        } else {
          var i :| 0 <= i < |batch| && batch[i] == w;
        }
      }
    }
  }

  /** Processing the head of the queue keeps the levels. */
  lemma LevelStep(g: Graph, s: VertexName, order: seq<VertexName>, done: seq<VertexName>, queue: seq<VertexName>,
                  level: map<VertexName, nat>, batch: seq<VertexName>, level': map<VertexName, nat>)
    requires QueueOrder(s, order, done, queue) && queue != []
    requires LevelInv(g, s, order, done, queue, level)
    requires Elems(batch) == Succ(g, queue[0]) - Elems(order)
    requires queue[0] in level && Raised(level, batch, level[queue[0]] + 1, level')
    ensures LevelInv(g, s, order + batch, done + [queue[0]], queue[1..] + batch, level')
  {
    DeeperScanned(g, done, queue[0], level, Elems(order), batch, level', done + [queue[0]]);
    DeeperFront(order, done, queue, level, batch, level');
    DeeperSorted(order, queue[0], level, batch, level');
    DeeperHops(g, s, queue[0], level, batch, level');
    ElemsConcat(order, batch);
  }

  /** Along a walk from s every vertex sits at a level no larger than its position, once all is processed. */
  lemma {:induction false} WalkLevel(g: Graph, s: VertexName, done: seq<VertexName>, level: map<VertexName, nat>,
                                     p: seq<VertexName>, k: nat)
    requires s in level && level[s] == 0 && level.Keys == Elems(done)
    requires NeighboursWithinOne(g, done, level)
    requires IsWalk(g, p) && p[0] == s && k < |p|
    ensures p[k] in level && level[p[k]] <= k
  {
    if k > 0 {
      WalkLevel(g, s, done, level, p, k - 1);
      assert p[k] in Succ(g, p[k - 1]);
    }
  }

  /** An empty queue: the levels are the least numbers of edges from s and the processed order is breadth order. */
  lemma LevelDone(g: Graph, s: VertexName, order: seq<VertexName>, done: seq<VertexName>, level: map<VertexName, nat>)
    requires QueueOrder(s, order, done, []) && LevelInv(g, s, order, done, [], level)
    ensures BreadthOrder(g, s, done, level)
  {
    assert done == order;
    forall v | v in done ensures v in level && IsHops(g, s, v, level[v]) {
      forall p | IsWalk(g, p) && p[0] == s && p[|p| - 1] == v ensures |p| >= level[v] + 1 {
        WalkLevel(g, s, done, level, p, |p| - 1);
      }
    }
  }

  /** One round of the corrected loop: dequeue the head, report it, enqueue its unvisited out-neighbours. */
  lemma BfsStep(g: Graph, s: VertexName, order: seq<VertexName>, done: seq<VertexName>, queue: seq<VertexName>,
                visited: Visited, trace: seq<BfsEvent>, batch: seq<VertexName>, q: seq<VertexName>, m: Visited)
    requires EndpointsExist(g) && UniquePairs(g.edges) && queue != []
    requires BfsInv(g, s, order, done, queue, visited, trace)
    requires batch == Unvisited(OutAdjacentVertices(g, queue[0]), visited)
    requires q == queue[1..] + batch && m.Keys == visited.Keys + Elems(batch)
    ensures Elems(batch) == Succ(g, queue[0]) - Elems(order)
    ensures BfsInv(g, s, order + batch, done + [queue[0]], q, m[queue[0] := Closed], trace + Report(g, queue[0]))
    ensures |VertexSet(g) - m[queue[0] := Closed].Keys| + |q| < |VertexSet(g) - visited.Keys| + |queue|
  {
    BatchFacts(g, queue[0], visited, batch);
    BfsStepOrder(g, s, order, done, queue, visited, trace, batch, m,
                 order + batch, done + [queue[0]], q, m[queue[0] := Closed], trace + Report(g, queue[0]));
    BfsStepReach(g, s, done, queue, visited, batch, done + [queue[0]], q, m[queue[0] := Closed]);
  }

  /** The same round one level down: the batch gets the head's level plus one. */
  lemma LevelAdvance(g: Graph, s: VertexName, order: seq<VertexName>, done: seq<VertexName>, queue: seq<VertexName>,
                     level: map<VertexName, nat>, batch: seq<VertexName>)
    requires QueueOrder(s, order, done, queue) && queue != []
    requires LevelInv(g, s, order, done, queue, level)
    requires Elems(batch) == Succ(g, queue[0]) - Elems(order)
    ensures queue[0] in level
    ensures LevelInv(g, s, order + batch, done + [queue[0]], queue[1..] + batch, Deeper(level, batch, level[queue[0]] + 1))
  {
    DeeperFacts(level, batch, level[queue[0]] + 1);
    LevelStep(g, s, order, done, queue, level, batch, Deeper(level, batch, level[queue[0]] + 1));
  }

  /**
   * Bfs from a source with the skip removed: each dequeued vertex is
   * reported with its out-edges, and its unvisited out-neighbours are
   * enqueued.  Every reachable vertex is reported exactly once, the source
   * first.
   */
  method Bfs(g: Graph, s: VertexName) returns (r: Result<seq<BfsEvent>>, ghost level: map<VertexName, nat>)
    requires Valid(g)
    ensures !IsVertex(g, s) ==> r == Err(SourceNotInGraph)
    ensures IsVertex(g, s) ==> r.Ok? && BfsResult(g, s, r.value)
    ensures IsVertex(g, s) ==> r.Ok? && BreadthOrder(g, s, Visits(r.value), level)
  {
    var queue: seq<VertexName> := [];
    var visited: Visited := map[];
    var trace: seq<BfsEvent> := [];
    level := map[];
    if !IsVertex(g, s) {
      return Err(SourceNotInGraph), level;
    }
    queue := queue + [s];
    visited := visited[s := Opened];
    ghost var order := [s];
    ghost var done := [];
    level := map[s := 0];
    BfsStart(g, s);
    LevelStart(g, s);
    while queue != []
      invariant BfsInv(g, s, order, done, queue, visited, trace)
      invariant LevelInv(g, s, order, done, queue, level)
      decreases |VertexSet(g) - visited.Keys| + |queue|
    {
      var vertex := queue[0];
      var batch := Unvisited(OutAdjacentVertices(g, vertex), visited);
      var q, m := EnqueueAll(queue[1..], visited, batch);
      BfsStep(g, s, order, done, queue, visited, trace, batch, q, m);
      LevelAdvance(g, s, order, done, queue, level, batch);
      level := Deeper(level, batch, level[queue[0]] + 1);
      order := order + batch;
      done := done + [queue[0]];
      queue := q;
      trace := trace + Report(g, vertex);
      visited := m[vertex := Closed];
    }
    BfsDone(g, s, order, done, visited, trace);
    LevelDone(g, s, order, done, level);
    VisitsReports(g, done);
    return Ok(trace), level;
  }

  /**
   * Bfs over all vertices AS WRITTEN, cut off after `fuel` rounds: the work
   * set shrinks only inside the vertex callback, which BfsAsWritten never
   * calls, so on a graph with a vertex no number of rounds empties it.
   */
  method BfsAllVerticesAsWritten(g: Graph, fuel: nat) returns (finished: bool, trace: seq<BfsEvent>)
    ensures finished <==> VertexSet(g) == {}
    ensures trace == []
  {
    var vertices := VertexSet(g);
    trace := [];
    var rounds := 0;
    while vertices != {} && rounds < fuel
      invariant vertices == VertexSet(g) && trace == []
      decreases fuel - rounds
    {
      var vertex :| vertex in vertices;
      var r := BfsAsWritten(g, vertex);
      var t := r.value;
      vertices := vertices - Elems(Visits(t));
      trace := trace + t;
      rounds := rounds + 1;
    }
    finished := vertices == {};
  }

  /** Round i of the all-vertices loop was a complete traversal from roots[i]. */
  ghost predicate RoundsFrom(g: Graph, roots: seq<VertexName>, rounds: seq<seq<BfsEvent>>) {
    |roots| == |rounds| && forall i :: 0 <= i < |rounds| ==> BfsResult(g, roots[i], rounds[i])
  }

  /** The state of the corrected all-vertices loop: the work set holds exactly the vertices not reported yet. */
  ghost predicate AllInv(g: Graph, vertices: set<VertexName>, trace: seq<BfsEvent>,
                         roots: seq<VertexName>, rounds: seq<seq<BfsEvent>>) {
    && vertices <= VertexSet(g)
    && RoundsFrom(g, roots, rounds)
    && trace == Flatten(rounds)
    && Elems(Visits(trace)) == VertexSet(g) - vertices
    && Distinct(roots)
    && Elems(roots) <= VertexSet(g) - vertices
  }

  lemma AllStart(g: Graph)
    ensures AllInv(g, VertexSet(g), [], [], [])
  {
    var none: seq<seq<BfsEvent>> := [];
    assert Flatten(none) == [];
  }

  /** A round from an unreported vertex v removes at least v from the work set. */
  lemma AllStep(g: Graph, vertices: set<VertexName>, trace: seq<BfsEvent>, roots: seq<VertexName>,
                rounds: seq<seq<BfsEvent>>, v: VertexName, t: seq<BfsEvent>)
    requires AllInv(g, vertices, trace, roots, rounds) && v in vertices
    requires BfsResult(g, v, t)
    ensures AllInv(g, vertices - Elems(Visits(t)), trace + t, roots + [v], rounds + [t])
    ensures |vertices - Elems(Visits(t))| < |vertices|
  {
    ResultCovers(g, v, t);
    AllStepRounds(g, roots, rounds, v, t);
    AllStepTrace(trace, rounds, t);
    AllStepSets(VertexSet(g), vertices, Elems(Visits(trace)), Elems(Visits(t)), v);
    AllStepRoots(roots, v, VertexSet(g) - vertices, VertexSet(g) - (vertices - Elems(Visits(t))));
  }

  /** A traversal from v reports v and only vertices of the graph. */
  lemma ResultCovers(g: Graph, v: VertexName, t: seq<BfsEvent>)
    requires BfsResult(g, v, t)
    ensures v in Elems(Visits(t)) && Elems(Visits(t)) <= VertexSet(g)
  {
  }

  lemma AllStepTrace(trace: seq<BfsEvent>, rounds: seq<seq<BfsEvent>>, t: seq<BfsEvent>)
    requires trace == Flatten(rounds)
    ensures trace + t == Flatten(rounds + [t])
    ensures Elems(Visits(trace + t)) == Elems(Visits(trace)) + Elems(Visits(t))
  {
    FlattenSnoc(rounds, t);
    VisitsConcat(trace, t);
    ElemsConcat(Visits(trace), Visits(t));
  }

  lemma AllStepSets(vs: set<VertexName>, vertices: set<VertexName>, reported: set<VertexName>,
                    added: set<VertexName>, v: VertexName)
    requires vertices <= vs && reported == vs - vertices && added <= vs && v in added && v in vertices
    ensures vertices - added <= vs
    ensures reported + added == vs - (vertices - added)
    ensures vs - vertices <= vs - (vertices - added)
    ensures |vertices - added| < |vertices|
  {
    StrictSubsetCard(vertices - added, vertices);
  }

  lemma AllStepRoots(roots: seq<VertexName>, v: VertexName, before: set<VertexName>, after: set<VertexName>)
    requires Distinct(roots) && Elems(roots) <= before && v !in before && before <= after && v in after
    ensures Distinct(roots + [v]) && Elems(roots + [v]) <= after
  {
    DistinctConcat(roots, [v]);
    ElemsConcat(roots, [v]);
  }

  lemma AllStepRounds(g: Graph, roots: seq<VertexName>, rounds: seq<seq<BfsEvent>>, v: VertexName, t: seq<BfsEvent>)
    requires RoundsFrom(g, roots, rounds) && BfsResult(g, v, t)
    ensures RoundsFrom(g, roots + [v], rounds + [t])
  {
    forall i | 0 <= i < |rounds + [t]| ensures BfsResult(g, (roots + [v])[i], (rounds + [t])[i]) {
      if i < |rounds| {
        assert (roots + [v])[i] == roots[i] && (rounds + [t])[i] == rounds[i];
      }
    }
  }

  /**
   * Bfs over all vertices with the corrected single-source Bfs: each round
   * starts from a vertex not reported yet and reports everything reachable
   * from it (afresh: rounds do not share their dictionaries), until every
   * vertex was reported.
   */
  method BfsAllVertices(g: Graph) returns (trace: seq<BfsEvent>, ghost roots: seq<VertexName>, ghost rounds: seq<seq<BfsEvent>>)
    requires Valid(g)
    ensures RoundsFrom(g, roots, rounds) && trace == Flatten(rounds)
    ensures Distinct(roots)
    ensures Elems(Visits(trace)) == VertexSet(g)
  {
    var vertices := VertexSet(g);
    trace := [];
    roots := [];
    rounds := [];
    AllStart(g);
    while vertices != {}
      invariant AllInv(g, vertices, trace, roots, rounds)
      decreases |vertices|
    {
      var vertex :| vertex in vertices;
      var r, level := Bfs(g, vertex);
      AllStep(g, vertices, trace, roots, rounds, vertex, r.value);
      var t := r.value;
      vertices := vertices - Elems(Visits(t));
      trace := trace + t;
      roots := roots + [vertex];
      rounds := rounds + [t];
    }
  }

  /** Two vertices and the one edge a -> b. */
  function OneEdge(): Graph {
    Graph([Vertex("a", 1, 0), Vertex("b", 0, 1)], [Edge("a", "b", 0)])
  }

  /** In OneEdge() b reaches only itself, and a reaches b. */
  lemma OneEdgeReach()
    ensures VertexSet(OneEdge()) == {"a", "b"}
    ensures ReachableFrom(OneEdge(), "b") == {"b"}
    ensures "b" in ReachableFrom(OneEdge(), "a")
  {
    var g := OneEdge();
    assert Names(g) == ["a", "b"];
    assert g.edges[0].vertexIn == "b";
    assert Succ(g, "b") == {};
    forall x | x in ReachableFrom(g, "b") ensures x == "b" {
      var p :| IsWalk(g, p) && p[0] == "b" && p[|p| - 1] == x;
      WalkStaysIn(g, {"b"}, p, |p| - 1);
    }
    assert IsWalk(g, ["b"]);
    assert IsWalk(g, ["a", "b"]);
  }

  /** A vertex reported first by one round and again by the next occurs twice in the joint trace. */
  lemma ReportedTwice(tb: seq<BfsEvent>, ta: seq<BfsEvent>, x: VertexName)
    requires |Visits(tb)| >= 1 && Visits(tb)[0] == x && x in Elems(Visits(ta))
    ensures !Distinct(Visits(Flatten([tb, ta])))
  {
    var none: seq<seq<BfsEvent>> := [];
    FlattenSnoc(none, tb);
    assert none + [tb] == [tb] && [tb] + [ta] == [tb, ta];
    FlattenSnoc([tb], ta);
    assert Flatten([tb, ta]) == tb + ta;
    VisitsConcat(tb, ta);
    var k :| 0 <= k < |Visits(ta)| && Visits(ta)[k] == x;
    var vs := Visits(tb) + Visits(ta);
    assert vs[0] == x && vs[|Visits(tb)| + k] == x;
    assert !Distinct(vs);
  }

  /**
   * The corrected all-vertices loop may report a vertex twice, since each
   * round starts from a fresh dictionary: on OneEdge() it may pick b first,
   * which reports b alone and leaves a unreported, and the round from a
   * then reports b again.
   */
  lemma BfsAllVerticesRepeats(tb: seq<BfsEvent>, ta: seq<BfsEvent>)
    requires BfsResult(OneEdge(), "b", tb) && BfsResult(OneEdge(), "a", ta)
    ensures Elems(Visits(tb)) == {"b"} && "a" in VertexSet(OneEdge())
    ensures RoundsFrom(OneEdge(), ["b", "a"], [tb, ta])
    ensures !Distinct(Visits(Flatten([tb, ta])))
  {
    OneEdgeReach();
    ReportedTwice(tb, ta, "b");
    assert [tb, ta][0] == tb && [tb, ta][1] == ta;
  }
}
