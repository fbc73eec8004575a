/**
 * Depth-first traversal (Algorithms.Dfs, both forms, and DfsRecursion).
 * The Dictionary<VertexName, VertexState> the caller may share between calls
 * is a map handed to each call and handed back updated; the three callbacks
 * are the events of the returned trace.
 */
module DepthFirst {
  import opened Seqs
  import opened Wrappers
  import opened Graphs
  import opened Traces

  datatype VertexState = Opened | Closed | Unvisited

  type Visited = map<VertexName, VertexState>

  /** Keys the traversal treats as done: present in the map and not currently open. */
  function SettledKeys(m: Visited): set<VertexName> {
    set k | k in m && m[k] != Opened
  }

  /** Every vertex marked Opened reaches s along at least one edge: it is an ancestor of s. */
  ghost predicate OpenAncestors(g: Graph, m: Visited, s: VertexName) {
    forall x {:trigger ReachablePlus(g, x, s)} :: x in m && m[x] == Opened ==> ReachablePlus(g, x, s)
  }

  /** Close order against edges: every out-neighbour of a closed vertex was settled before, or closed earlier. */
  ghost predicate TopoClosed(g: Graph, c: seq<VertexName>, base: set<VertexName>) {
    forall i :: 0 <= i < |c| ==> Succ(g, c[i]) <= base + Elems(c[..i])
  }

  /** The shape of the trace of one DfsRecursion call from s. */
  ghost predicate DfsTrace(g: Graph, s: VertexName, trace: seq<Event>) {
    && |trace| >= 2 && trace[0] == Open(s) && trace[|trace| - 1] == Close(s)
    && WellNested(trace)
    && OpenedSeq(trace) == [s] + Targets(trace)
    && Distinct(OpenedSeq(trace))
    && EdgesLeadToOpen(trace)
    && FollowsGraphEdges(g, trace)
  }

  /** The visited map grows by exactly the vertices opened, each now Closed; older entries are untouched. */
  ghost predicate DfsVisitedUpdate(g: Graph, before: Visited, after: Visited, newly: set<VertexName>) {
    && newly <= VertexSet(g)
    && newly !! before.Keys
    && after.Keys == before.Keys + newly
    && (forall k :: k in before ==> after[k] == before[k])
    && (forall k :: k in newly ==> after[k] == Closed)
  }

  /** What one DfsRecursion call from s does to the visited map and reports through its callbacks. */
  ghost predicate DfsOutcome(g: Graph, s: VertexName, before: Visited, after: Visited, trace: seq<Event>) {
    && DfsTrace(g, s, trace)
    && DfsVisitedUpdate(g, before, after, Elems(OpenedSeq(trace)))
    && (forall u :: u in Elems(OpenedSeq(trace)) ==> Succ(g, u) <= after.Keys)
    && ReachesOpened(g, s, OpenedSeq(trace))
    && (Acyclic(g) && OpenAncestors(g, before, s) ==> TopoClosed(g, ClosedSeq(trace), SettledKeys(before)))
  }

  /** Every vertex of vs is reachable from s. */
  ghost predicate ReachesOpened(g: Graph, s: VertexName, vs: seq<VertexName>) {
    forall x :: x in vs ==> Reachable(g, s, x)
  }

  /** The events reported so far inside DfsRecursion(s), after Open(s) and before Close(s). */
  ghost predicate BodyTrace(g: Graph, s: VertexName, body: seq<Event>) {
    && Run(body, [s]) == Some([s])
    && OpenedSeq(body) == Targets(body)
    && Distinct(OpenedSeq(body))
    && s !in Elems(OpenedSeq(body))
    && EdgesLeadToOpen(body)
    && FollowsGraphEdges(g, body)
  }

  /** The visited map inside DfsRecursion(s): s Opened, the vertices opened below it Closed. */
  ghost predicate BodyState(g: Graph, s: VertexName, before: Visited, cur: Visited, below: set<VertexName>) {
    && DfsVisitedUpdate(g, before, cur - {s}, below)
    && s in cur && cur[s] == Opened && s !in before
    && (forall u :: u in below ==> Succ(g, u) <= cur.Keys)
  }

  /** The state inside DfsRecursion(s) after some of the foreach iterations. */
  ghost predicate BodyInv(g: Graph, s: VertexName, before: Visited, cur: Visited, body: seq<Event>) {
    && BodyTrace(g, s, body)
    && BodyState(g, s, before, cur, Elems(OpenedSeq(body)))
    && ReachesOpened(g, s, OpenedSeq(body))
    && (Acyclic(g) && OpenAncestors(g, before, s) ==> TopoClosed(g, ClosedSeq(body), SettledKeys(before)))
  }

  lemma TopoClosedConcat(g: Graph, a: seq<VertexName>, b: seq<VertexName>, base: set<VertexName>)
    requires TopoClosed(g, a, base) && TopoClosed(g, b, base + Elems(a))
    ensures TopoClosed(g, a + b, base)
  {
    var c := a + b;
    forall i | 0 <= i < |c| ensures Succ(g, c[i]) <= base + Elems(c[..i]) {
      if i < |a| {
        assert c[i] == a[i] && c[..i] == a[..i];
      } else {
        var k := i - |a|;
        assert c[i] == b[k];
        assert c[..i] == a + b[..k];
        ElemsConcat(a, b[..k]);
      }
    }
  }

  lemma SelfLoopCyclic(g: Graph, s: VertexName)
    requires s in VertexSet(g) && s in Succ(g, s)
    ensures !Acyclic(g)
  {
    assert IsWalk(g, [s, s]);
  }

  lemma EdgeReachablePlus(g: Graph, s: VertexName, w: VertexName)
    requires s in VertexSet(g) && w in Succ(g, s)
    ensures ReachablePlus(g, s, w)
  {
    assert IsWalk(g, [s, w]);
  }

  /** An out-neighbour of s found already visited is settled or closed within this call, unless a cycle exists. */
  lemma SkipKeepsOrder(g: Graph, s: VertexName, before: Visited, cur: Visited, body: seq<Event>, w: VertexName)
    requires s in VertexSet(g)
    requires BodyTrace(g, s, body) && BodyState(g, s, before, cur, Elems(OpenedSeq(body)))
    requires w in cur && w in Succ(g, s)
    requires Acyclic(g) && OpenAncestors(g, before, s)
    ensures w in SettledKeys(before) + Elems(ClosedSeq(body))
  {
    if w == s {
      SelfLoopCyclic(g, s);
      assert false;
    } else if w in before && before[w] == Opened {
      ReachablePlusStep(g, w, s, w);
      assert false;
    } else if w !in before {
      BalancedRun(body, [s]);
    }
  }

  lemma FollowProjections(e: Edge)
    ensures OpenedSeq([Follow(e)]) == [] && ClosedSeq([Follow(e)]) == [] && Targets([Follow(e)]) == [e.vertexIn]
  {
  }

  lemma StepProjections(body: seq<Event>, e: Edge, ct: seq<Event>)
    ensures OpenedSeq(body + ([Follow(e)] + ct)) == OpenedSeq(body) + OpenedSeq(ct)
    ensures ClosedSeq(body + ([Follow(e)] + ct)) == ClosedSeq(body) + ClosedSeq(ct)
    ensures Targets(body + ([Follow(e)] + ct)) == Targets(body) + ([e.vertexIn] + Targets(ct))
  {
    FollowProjections(e);
    ProjectionsConcat([Follow(e)], ct);
    ProjectionsConcat(body, [Follow(e)] + ct);
  }

  lemma StepRun(s: VertexName, body: seq<Event>, e: Edge, ct: seq<Event>)
    requires Run(body, [s]) == Some([s]) && WellNested(ct) && e.vertexOut == s
    ensures Run(body + ([Follow(e)] + ct), [s]) == Some([s])
  {
    RunSingle(Follow(e), [s]);
    var empty: seq<VertexName> := [];
    RunLift(ct, empty, empty, [s]);
    assert [s] + empty == [s];
    RunConcat([Follow(e)], ct, [s]);
    RunConcat(body, [Follow(e)] + ct, [s]);
  }

  lemma StepEdges(g: Graph, body: seq<Event>, e: Edge, ct: seq<Event>)
    requires EdgesLeadToOpen(body) && FollowsGraphEdges(g, body)
    requires EdgesLeadToOpen(ct) && FollowsGraphEdges(g, ct)
    requires |ct| > 0 && ct[0] == Open(e.vertexIn) && e in g.edges
    ensures EdgesLeadToOpen(body + ([Follow(e)] + ct))
    ensures FollowsGraphEdges(g, body + ([Follow(e)] + ct))
  {
    EdgesLeadToOpenCons(e, ct);
    EdgesLeadToOpenConcat(body, [Follow(e)] + ct);
    assert FollowsGraphEdges(g, [Follow(e)]);
    FollowsGraphEdgesConcat(g, [Follow(e)], ct);
    FollowsGraphEdgesConcat(g, body, [Follow(e)] + ct);
  }

  /** The trace part of one recursing foreach iteration. */
  lemma StepTrace(g: Graph, s: VertexName, body: seq<Event>, e: Edge, ct: seq<Event>)
    requires BodyTrace(g, s, body)
    requires e in g.edges && e.vertexOut == s
    requires DfsTrace(g, e.vertexIn, ct)
    requires Elems(OpenedSeq(ct)) !! Elems(OpenedSeq(body)) + {s}
    ensures BodyTrace(g, s, body + ([Follow(e)] + ct))
    ensures OpenedSeq(body + ([Follow(e)] + ct)) == OpenedSeq(body) + OpenedSeq(ct)
    ensures ClosedSeq(body + ([Follow(e)] + ct)) == ClosedSeq(body) + ClosedSeq(ct)
  {
    var ob := OpenedSeq(body);
    var oc := OpenedSeq(ct);
    StepProjections(body, e, ct);
    StepRun(s, body, e, ct);
    StepEdges(g, body, e, ct);
    DistinctConcat(ob, oc);
    ElemsConcat(ob, oc);
  }

  /** The visited-map part of one recursing foreach iteration. */
  lemma StepState(g: Graph, s: VertexName, before: Visited, cur: Visited, below: set<VertexName>,
                  w: VertexName, cur2: Visited, below2: set<VertexName>)
    requires BodyState(g, s, before, cur, below)
    requires w !in cur && w in Succ(g, s) && w in below2
    requires DfsVisitedUpdate(g, cur, cur2, below2)
    requires forall u :: u in below2 ==> Succ(g, u) <= cur2.Keys
    ensures BodyState(g, s, before, cur2, below + below2)
  {
  }

  /** The close-order part of one recursing foreach iteration. */
  lemma StepOrder(g: Graph, s: VertexName, before: Visited, cur: Visited, body: seq<Event>,
                  w: VertexName, ct: seq<Event>)
    requires s in VertexSet(g)
    requires BodyTrace(g, s, body) && BodyState(g, s, before, cur, Elems(OpenedSeq(body)))
    requires w in Succ(g, s) && w !in cur
    requires Acyclic(g) && OpenAncestors(g, before, s)
    requires TopoClosed(g, ClosedSeq(body), SettledKeys(before))
    requires OpenAncestors(g, cur, w) ==> TopoClosed(g, ClosedSeq(ct), SettledKeys(cur))
    ensures TopoClosed(g, ClosedSeq(body) + ClosedSeq(ct), SettledKeys(before))
  {
    assert OpenAncestors(g, cur, w) by {
      forall x | x in cur && cur[x] == Opened ensures ReachablePlus(g, x, w) {
        if x == s {
          EdgeReachablePlus(g, s, w);
        } else {
          ReachablePlusStep(g, x, s, w);
        }
      }
    }
    BalancedRun(body, [s]);
    assert SettledKeys(cur) == SettledKeys(before) + Elems(ClosedSeq(body));
    TopoClosedConcat(g, ClosedSeq(body), ClosedSeq(ct), SettledKeys(before));
  }

  /** One foreach iteration that recursed into the unvisited neighbour w keeps BodyInv. */
  lemma BodyStep(g: Graph, s: VertexName, before: Visited, cur: Visited, body: seq<Event>,
                 e: Edge, cur2: Visited, ct: seq<Event>)
    requires s in VertexSet(g)
    requires BodyInv(g, s, before, cur, body)
    requires e in g.edges && e.vertexOut == s && e.vertexIn !in cur
    requires DfsOutcome(g, e.vertexIn, cur, cur2, ct)
    ensures BodyInv(g, s, before, cur2, body + ([Follow(e)] + ct))
    ensures cur.Keys <= cur2.Keys
    ensures Elems(ClosedSeq(body)) <= Elems(ClosedSeq(body + ([Follow(e)] + ct)))
    ensures e.vertexIn in Elems(ClosedSeq(body + ([Follow(e)] + ct)))
  {
    var w := e.vertexIn;
    var nb := body + ([Follow(e)] + ct);
    assert w in Succ(g, s);
    StepTrace(g, s, body, e, ct);
    ElemsConcat(OpenedSeq(body), OpenedSeq(ct));
    StepState(g, s, before, cur, Elems(OpenedSeq(body)), w, cur2, Elems(OpenedSeq(ct)));
    ElemsConcat(ClosedSeq(body), ClosedSeq(ct));
    WellNestedCloses(ct);
    StepReach(g, s, w, OpenedSeq(body), OpenedSeq(ct));
    if Acyclic(g) && OpenAncestors(g, before, s) {
      StepOrder(g, s, before, cur, body, w, ct);
    }
  }

  /** The vertices a recursion into the out-neighbour w opens are reachable from s through w. */
  lemma StepReach(g: Graph, s: VertexName, w: VertexName, ob: seq<VertexName>, oc: seq<VertexName>)
    requires s in VertexSet(g) && w in Succ(g, s)
    requires ReachesOpened(g, s, ob) && ReachesOpened(g, w, oc)
    ensures ReachesOpened(g, s, ob + oc)
  {
    forall x | x in ob + oc ensures Reachable(g, s, x) {
      if x !in ob {
        ReachableThrough(g, s, w, x);
      }
    }
  }

  lemma WrapProjections(s: VertexName, body: seq<Event>)
    ensures OpenedSeq([Open(s)] + body + [Close(s)]) == [s] + OpenedSeq(body)
    ensures ClosedSeq([Open(s)] + body + [Close(s)]) == ClosedSeq(body) + [s]
    ensures Targets([Open(s)] + body + [Close(s)]) == Targets(body)
  {
    ProjectionsConcat([Open(s)], body);
    ProjectionsConcat([Open(s)] + body, [Close(s)]);
  }

  lemma WrapRun(s: VertexName, body: seq<Event>)
    requires Run(body, [s]) == Some([s])
    ensures WellNested([Open(s)] + body + [Close(s)])
  {
    var empty: seq<VertexName> := [];
    RunSingle(Open(s), empty);
    assert empty + [s] == [s];
    RunSingle(Close(s), [s]);
    assert [s][..0] == empty;
    RunConcat([Open(s)], body, empty);
    RunConcat([Open(s)] + body, [Close(s)], empty);
  }

  lemma WrapEdges(g: Graph, s: VertexName, body: seq<Event>)
    requires EdgesLeadToOpen(body) && FollowsGraphEdges(g, body)
    ensures EdgesLeadToOpen([Open(s)] + body + [Close(s)])
    ensures FollowsGraphEdges(g, [Open(s)] + body + [Close(s)])
  {
    assert EdgesLeadToOpen([Open(s)]) && EdgesLeadToOpen([Close(s)]);
    EdgesLeadToOpenConcat([Open(s)], body);
    EdgesLeadToOpenConcat([Open(s)] + body, [Close(s)]);
    assert FollowsGraphEdges(g, [Open(s)]) && FollowsGraphEdges(g, [Close(s)]);
    FollowsGraphEdgesConcat(g, [Open(s)], body);
    FollowsGraphEdgesConcat(g, [Open(s)] + body, [Close(s)]);
  }

  /** Opening s, the body, and closing s make the trace of a DfsRecursion call. */
  lemma WrapTrace(g: Graph, s: VertexName, body: seq<Event>)
    requires BodyTrace(g, s, body)
    ensures DfsTrace(g, s, [Open(s)] + body + [Close(s)])
    ensures OpenedSeq([Open(s)] + body + [Close(s)]) == [s] + OpenedSeq(body)
    ensures ClosedSeq([Open(s)] + body + [Close(s)]) == ClosedSeq(body) + [s]
  {
    WrapProjections(s, body);
    WrapRun(s, body);
    WrapEdges(g, s, body);
    DistinctConcat([s], OpenedSeq(body));
  }

  /** Marking s Closed once all its out-neighbours are in the map completes the map update of the call. */
  lemma FinishState(g: Graph, s: VertexName, before: Visited, cur: Visited, below: set<VertexName>)
    requires s in VertexSet(g)
    requires BodyState(g, s, before, cur, below)
    requires Succ(g, s) <= cur.Keys
    ensures DfsVisitedUpdate(g, before, cur[s := Closed], {s} + below)
    ensures forall u :: u in {s} + below ==> Succ(g, u) <= cur[s := Closed].Keys
  {
    assert cur[s := Closed].Keys == cur.Keys;
    assert cur.Keys == (cur - {s}).Keys + {s};
  }

  /** Closing s last keeps the close order topological when its out-neighbours are settled or closed. */
  lemma FinishOrder(g: Graph, s: VertexName, c: seq<VertexName>, base: set<VertexName>)
    requires TopoClosed(g, c, base)
    requires Succ(g, s) <= base + Elems(c)
    ensures TopoClosed(g, c + [s], base)
  {
    assert TopoClosed(g, [s], base + Elems(c));
    TopoClosedConcat(g, c, [s], base);
  }

  /** Closing s after the last neighbour establishes the outcome of the call. */
  lemma BodyFinish(g: Graph, s: VertexName, before: Visited, cur: Visited, body: seq<Event>)
    requires s in VertexSet(g)
    requires BodyInv(g, s, before, cur, body)
    requires Succ(g, s) <= cur.Keys
    requires Acyclic(g) && OpenAncestors(g, before, s) ==> Succ(g, s) <= SettledKeys(before) + Elems(ClosedSeq(body))
    ensures DfsOutcome(g, s, before, cur[s := Closed], [Open(s)] + body + [Close(s)])
  {
    var trace := [Open(s)] + body + [Close(s)];
    WrapTrace(g, s, body);
    ElemsConcat([s], OpenedSeq(body));
    assert Elems(OpenedSeq(trace)) == {s} + Elems(OpenedSeq(body));
    FinishState(g, s, before, cur, Elems(OpenedSeq(body)));
    ReachableRefl(g, s);
    if Acyclic(g) && OpenAncestors(g, before, s) {
      FinishOrder(g, s, ClosedSeq(body), SettledKeys(before));
    }
  }

  /** The foreach loop of DfsRecursion(s) after its first i out-neighbours. */
  ghost predicate LoopInv(g: Graph, s: VertexName, before: Visited, cur: Visited, body: seq<Event>,
                          adj: seq<VertexName>, i: int, ordered: bool) {
    && 0 <= i <= |adj|
    && adj == OutAdjacentVertices(g, s)
    && BodyInv(g, s, before, cur, body)
    && (forall j :: 0 <= j < i ==> adj[j] in cur)
    && (ordered ==> forall j :: 0 <= j < i ==> adj[j] in SettledKeys(before) + Elems(ClosedSeq(body)))
  }

  /** Before the first iteration: s is Opened, nothing reported since. */
  lemma IterStart(g: Graph, s: VertexName, before: Visited, ordered: bool)
    requires s in VertexSet(g) && s !in before
    requires ordered ==> Acyclic(g) && OpenAncestors(g, before, s)
    ensures LoopInv(g, s, before, before[s := Opened], [], OutAdjacentVertices(g, s), 0, ordered)
  {
    var empty: seq<Event> := [];
    assert before[s := Opened] - {s} == before;
    assert OpenedSeq(empty) == [] && ClosedSeq(empty) == [] && Targets(empty) == [];
    assert Run(empty, [s]) == Some([s]);
  }

  /** An unvisited neighbour adj[i] is a vertex reached along a stored edge, and recursing into it shrinks the unvisited set. */
  lemma IterPrepare(g: Graph, s: VertexName, before: Visited, cur: Visited, body: seq<Event>,
                    adj: seq<VertexName>, i: int, ordered: bool)
    requires EndpointsExist(g) && s in VertexSet(g)
    requires LoopInv(g, s, before, cur, body, adj, i, ordered) && i < |adj| && adj[i] !in cur
    ensures GetEdge(g, s, adj[i]).Some?
    ensures var e := GetEdge(g, s, adj[i]).value; e in g.edges && e.vertexOut == s && e.vertexIn == adj[i]
    ensures adj[i] in VertexSet(g)
    ensures |VertexSet(g) - cur.Keys| < |VertexSet(g) - before.Keys|
  {
    OutAdjacentIsSucc(g, s);
    assert adj[i] in Succ(g, s);
    GetEdgeOfSucc(g, s, adj[i]);
    assert s in VertexSet(g) - before.Keys && s !in VertexSet(g) - cur.Keys;
    StrictSubsetCard(VertexSet(g) - cur.Keys, VertexSet(g) - before.Keys);
  }

  /** An iteration that recurses into the unvisited neighbour adj[i] along edge e. */
  lemma IterRecurse(g: Graph, s: VertexName, before: Visited, cur: Visited, body: seq<Event>,
                    adj: seq<VertexName>, i: int, ordered: bool, e: Edge, cur2: Visited, ct: seq<Event>)
    requires s in VertexSet(g) && (ordered ==> Acyclic(g) && OpenAncestors(g, before, s))
    requires LoopInv(g, s, before, cur, body, adj, i, ordered) && i < |adj|
    requires e in g.edges && e.vertexOut == s && e.vertexIn == adj[i] && adj[i] !in cur
    requires DfsOutcome(g, adj[i], cur, cur2, ct)
    ensures LoopInv(g, s, before, cur2, body + ([Follow(e)] + ct), adj, i + 1, ordered)
  {
    BodyStep(g, s, before, cur, body, e, cur2, ct);
  }

  /** An iteration whose neighbour adj[i] is already in the map. */
  lemma IterSkip(g: Graph, s: VertexName, before: Visited, cur: Visited, body: seq<Event>,
                 adj: seq<VertexName>, i: int, ordered: bool)
    requires s in VertexSet(g) && (ordered ==> Acyclic(g) && OpenAncestors(g, before, s))
    requires LoopInv(g, s, before, cur, body, adj, i, ordered) && i < |adj| && adj[i] in cur
    ensures LoopInv(g, s, before, cur, body, adj, i + 1, ordered)
  {
    OutAdjacentIsSucc(g, s);
    assert adj[i] in Succ(g, s);
    if ordered {
      SkipKeepsOrder(g, s, before, cur, body, adj[i]);
    }
  }

  /** After the last neighbour, closing s gives the outcome of the call. */
  lemma IterDone(g: Graph, s: VertexName, before: Visited, cur: Visited, body: seq<Event>,
                 adj: seq<VertexName>, ordered: bool)
    requires s in VertexSet(g) && ordered == (Acyclic(g) && OpenAncestors(g, before, s))
    requires LoopInv(g, s, before, cur, body, adj, |adj|, ordered)
    ensures DfsOutcome(g, s, before, cur[s := Closed], [Open(s)] + body + [Close(s)])
  {
    OutAdjacentIsSucc(g, s);
    BodyFinish(g, s, before, cur, body);
  }

  /**
   * DfsRecursion: mark s Opened, report it, then for each out-neighbour not
   * in the map at the moment it is reached, report the edge and recurse;
   * finally report s closed and mark it Closed.
   */
  method DfsRecursion(g: Graph, s: VertexName, visited: Visited) returns (after: Visited, trace: seq<Event>)
    requires EndpointsExist(g) && s in VertexSet(g) && s !in visited
    ensures DfsOutcome(g, s, visited, after, trace)
    decreases |VertexSet(g) - visited.Keys|
  {
    var cur := visited[s := Opened];
    var body: seq<Event> := [];
    var adj := OutAdjacentVertices(g, s);
    ghost var ordered := Acyclic(g) && OpenAncestors(g, visited, s);
    IterStart(g, s, visited, ordered);
    var i := 0;
    while i < |adj|
      invariant LoopInv(g, s, visited, cur, body, adj, i, ordered)
      decreases |adj| - i
    {
      var w := adj[i];
      if w !in cur {
        IterPrepare(g, s, visited, cur, body, adj, i, ordered);
        var e := GetEdge(g, s, w).value;
        var cur2, ct := DfsRecursion(g, w, cur);
        IterRecurse(g, s, visited, cur, body, adj, i, ordered, e, cur2, ct);
        body := body + ([Follow(e)] + ct);
        cur := cur2;
      } else {
        IterSkip(g, s, visited, cur, body, adj, i, ordered);
      }
      i := i + 1;
    }
    IterDone(g, s, visited, cur, body, adj, ordered);
    trace := [Open(s)] + body + [Close(s)];
    after := cur[s := Closed];
  }

  /**
   * Dfs from a source: unknown sources are rejected; a missing map means a
   * fresh one; DfsRecursion's Dictionary.Add rejects a source the shared map
   * already holds.
   */
  method Dfs(g: Graph, s: VertexName, visited: Option<Visited>) returns (r: Result<(Visited, seq<Event>)>)
    requires EndpointsExist(g)
    ensures !IsVertex(g, s) ==> r == Err(SourceNotInGraph)
    ensures IsVertex(g, s) && s in visited.GetOr(map[]) ==> r == Err(DuplicateKey)
    ensures IsVertex(g, s) && s !in visited.GetOr(map[]) ==>
      r.Ok? && DfsOutcome(g, s, visited.GetOr(map[]), r.value.0, r.value.1)
  {
    if !IsVertex(g, s) {
      return Err(SourceNotInGraph);
    }
    var m := visited.GetOr(map[]);
    if s in m {
      return Err(DuplicateKey);
    }
    var after, trace := DfsRecursion(g, s, m);
    return Ok((after, trace));
  }

  /** The state of the all-vertices loop between rounds. */
  ghost predicate RoundsInv(g: Graph, visited: Visited, trace: seq<Event>) {
    && visited.Keys <= VertexSet(g)
    && (forall k :: k in visited ==> visited[k] == Closed)
    && WellNested(trace)
    && Distinct(OpenedSeq(trace))
    && Elems(OpenedSeq(trace)) == visited.Keys
    && EdgesLeadToOpen(trace)
    && FollowsGraphEdges(g, trace)
    && (forall u :: u in visited ==> Succ(g, u) <= visited.Keys)
    && (Acyclic(g) ==> TopoClosed(g, ClosedSeq(trace), {}))
  }

  lemma RoundsStart(g: Graph)
    ensures RoundsInv(g, map[], [])
  {
    var empty: seq<Event> := [];
    assert OpenedSeq(empty) == [] && ClosedSeq(empty) == [];
    assert Run(empty, []) == Some([]);
  }

  /** The trace and map of one round of the all-vertices loop: a DfsRecursion from the unvisited vertex v. */
  lemma RoundTrace(g: Graph, v: VertexName, visited: Visited, trace: seq<Event>, after: Visited, t: seq<Event>)
    requires RoundsInv(g, visited, trace) && v !in visited
    requires DfsOutcome(g, v, visited, after, t)
    ensures RoundsInv(g, after, trace + t)
  {
    ProjectionsConcat(trace, t);
    WellNestedConcat(trace, t);
    DistinctConcat(OpenedSeq(trace), OpenedSeq(t));
    ElemsConcat(OpenedSeq(trace), OpenedSeq(t));
    EdgesLeadToOpenConcat(trace, t);
    FollowsGraphEdgesConcat(g, trace, t);
    if Acyclic(g) {
      assert OpenAncestors(g, visited, v);
      assert SettledKeys(visited) == visited.Keys;
      WellNestedCloses(trace);
      TopoClosedConcat(g, ClosedSeq(trace), ClosedSeq(t), {});
    }
  }

  /** What a round adds to the map: the vertices its trace opens, v first, all reached along graph edges. */
  lemma RoundKeys(g: Graph, v: VertexName, visited: Visited, after: Visited, t: seq<Event>)
    requires DfsOutcome(g, v, visited, after, t)
    ensures after.Keys == visited.Keys + Elems(OpenedSeq(t))
    ensures OpenedSeq(t) == [v] + Targets(t)
    ensures FollowsGraphEdges(g, t)
  {
  }

  /** Adding v to the visited keys shrinks the unvisited vertices. */
  lemma ShrinkUnvisited(vs: set<VertexName>, a: set<VertexName>, b: set<VertexName>, v: VertexName)
    requires v in vs && v !in a && v in b && a <= b
    ensures (vs - a) - b == vs - b
    ensures |vs - b| < |vs - a|
  {
    StrictSubsetCard(vs - b, vs - a);
  }

  /** On a graph without edges a round from v opens v alone. */
  lemma EdgelessRound(g: Graph, v: VertexName, t: seq<Event>)
    requires g.edges == [] && FollowsGraphEdges(g, t)
    requires OpenedSeq(t) == [v] + Targets(t)
    ensures Elems(OpenedSeq(t)) == {v}
  {
    assert NoFollow(t);
    NoFollowNoTargets(t);
  }

  lemma AddOneKey(visited: Visited, after: Visited, v: VertexName)
    requires after.Keys == visited.Keys + {v} && v !in visited
    ensures |after| == |visited| + 1
  {
    assert |after.Keys| == |visited.Keys| + 1;
  }

  /** How many vertices one round visits: at least v, and exactly v on a graph without edges. */
  lemma RoundCount(g: Graph, v: VertexName, visited: Visited, after: Visited, t: seq<Event>)
    requires v in VertexSet(g) && v !in visited
    requires DfsOutcome(g, v, visited, after, t)
    ensures (VertexSet(g) - visited.Keys) - after.Keys == VertexSet(g) - after.Keys
    ensures |VertexSet(g) - after.Keys| < |VertexSet(g) - visited.Keys|
    ensures g.edges == [] ==> |after| == |visited| + 1
  {
    RoundKeys(g, v, visited, after, t);
    assert v in Elems(OpenedSeq(t));
    ShrinkUnvisited(VertexSet(g), visited.Keys, after.Keys, v);
    if g.edges == [] {
      EdgelessRound(g, v, t);
      AddOneKey(visited, after, v);
    }
  }

  /** Dfs called with the shared map on an unvisited vertex succeeds. */
  lemma RoundOk(g: Graph, v: VertexName, visited: Visited, r: Result<(Visited, seq<Event>)>)
    requires v in VertexSet(g) && v !in visited
    requires IsVertex(g, v) && v !in Some(visited).GetOr(map[]) ==>
      r.Ok? && DfsOutcome(g, v, Some(visited).GetOr(map[]), r.value.0, r.value.1)
    ensures r.Ok? && DfsOutcome(g, v, visited, r.value.0, r.value.1)
  {
    assert Some(visited).GetOr(map[]) == visited;
  }

  /** A round of the all-vertices loop through the public Dfs with the shared map. */
  lemma DfsRound(g: Graph, v: VertexName, visited: Visited, trace: seq<Event>, r: Result<(Visited, seq<Event>)>)
    requires RoundsInv(g, visited, trace) && v in VertexSet(g) && v !in visited
    requires IsVertex(g, v) && v !in Some(visited).GetOr(map[]) ==>
      r.Ok? && DfsOutcome(g, v, Some(visited).GetOr(map[]), r.value.0, r.value.1)
    ensures r.Ok? && RoundsInv(g, r.value.0, trace + r.value.1)
    ensures (VertexSet(g) - visited.Keys) - r.value.0.Keys == VertexSet(g) - r.value.0.Keys
    ensures |VertexSet(g) - r.value.0.Keys| < |VertexSet(g) - visited.Keys|
    ensures g.edges == [] ==> |r.value.0| == |visited| + 1
  {
    RoundOk(g, v, visited, r);
    RoundTrace(g, v, visited, trace, r.value.0, r.value.1);
    RoundCount(g, v, visited, r.value.0, r.value.1);
  }

  lemma UnvisitedCount(g: Graph, visited: Visited)
    requires visited.Keys <= VertexSet(g)
    ensures |VertexSet(g) - visited.Keys| == |VertexSet(g)| - |visited|
  {
    assert VertexSet(g) == visited.Keys + (VertexSet(g) - visited.Keys);
  }

  ghost predicate NoFollow(t: seq<Event>) {
    forall i :: 0 <= i < |t| ==> !t[i].Follow?
  }

  /** A trace without edge events follows no edge. */
  lemma {:induction false} NoFollowNoTargets(t: seq<Event>)
    requires NoFollow(t)
    ensures Targets(t) == []
  {
    if t != [] {
      assert NoFollow(t[1..]) by {
        forall i | 0 <= i < |t[1..]| ensures !t[1..][i].Follow? {
          assert t[1..][i] == t[i + 1];
        }
      }
      NoFollowNoTargets(t[1..]);
    }
  }

  /**
   * Dfs over all vertices AS WRITTEN: the loop re-filters `vertices` down to
   * the unvisited ones but keeps comparing the visited count against that
   * shrinking count, so it stops once half of the vertices are visited.
   */
  method DfsAllVerticesAsWritten(g: Graph) returns (visited: Visited, trace: seq<Event>)
    requires EndpointsExist(g)
    ensures RoundsInv(g, visited, trace)
    ensures 2 * |visited| >= |VertexSet(g)|
    ensures g.edges == [] ==> |visited| == (|VertexSet(g)| + 1) / 2
  {
    visited := map[];
    trace := [];
    var vertices := VertexSet(g);
    RoundsStart(g);
    UnvisitedCount(g, visited);
    while |visited| < |vertices|
      invariant RoundsInv(g, visited, trace)
      invariant vertices == VertexSet(g) - visited.Keys
      invariant |vertices| == |VertexSet(g)| - |visited|
      invariant g.edges == [] ==> 2 * |visited| <= |VertexSet(g)| + 1
      decreases |vertices|
    {
      var v :| v in vertices;
      var r := Dfs(g, v, Some(visited));
      DfsRound(g, v, visited, trace, r);
      visited := r.value.0;
      trace := trace + r.value.1;
      vertices := vertices - visited.Keys;
      UnvisitedCount(g, visited);
    }
  }

  /** Two vertices and no edges: the graph on which the as-written loop stops early. */
  function TwoIsolatedVertices(): Graph {
    Graph([Vertex("A", 0, 0), Vertex("B", 0, 0)], [])
  }

  /** The as-written all-vertices Dfs leaves a vertex of TwoIsolatedVertices() unopened. */
  method DfsAllVerticesMissesVertex() returns (visited: Visited, missed: VertexName)
    ensures missed in VertexSet(TwoIsolatedVertices()) && missed !in visited
  {
    var g := TwoIsolatedVertices();
    assert Names(g) == ["A", "B"];
    assert VertexSet(g) == {"A", "B"};
    var trace;
    visited, trace := DfsAllVerticesAsWritten(g);
    assert |visited| == 1;
    if "A" in visited {
      assert visited.Keys == {"A"} by {
        assert visited.Keys <= {"A", "B"};
        if "B" in visited {
          assert {"A", "B"} <= visited.Keys;
          SubsetCard({"A", "B"}, visited.Keys);
        }
      }
      missed := "B";
    } else {
      missed := "A";
    }
  }

  /** Once no vertex is unvisited, every vertex was opened and closed exactly once. */
  lemma RoundsDone(g: Graph, visited: Visited, trace: seq<Event>)
    requires RoundsInv(g, visited, trace)
    requires VertexSet(g) - visited.Keys == {}
    ensures visited.Keys == VertexSet(g)
    ensures Elems(OpenedSeq(trace)) == VertexSet(g) && Distinct(OpenedSeq(trace))
    ensures Elems(ClosedSeq(trace)) == VertexSet(g) && Distinct(ClosedSeq(trace))
  {
    forall x | x in VertexSet(g) ensures x in visited.Keys {
      assert x !in VertexSet(g) - visited.Keys;
    }
    WellNestedCloses(trace);
  }

  /**
   * Dfs over all vertices with the loop test corrected to "some vertex is
   * still unvisited": every vertex is opened and closed exactly once.
   */
  method DfsAllVertices(g: Graph) returns (visited: Visited, trace: seq<Event>)
    requires EndpointsExist(g)
    ensures RoundsInv(g, visited, trace)
    ensures visited.Keys == VertexSet(g)
    ensures Elems(OpenedSeq(trace)) == VertexSet(g) && Distinct(OpenedSeq(trace))
    ensures Elems(ClosedSeq(trace)) == VertexSet(g) && Distinct(ClosedSeq(trace))
    ensures Acyclic(g) ==> TopoClosed(g, ClosedSeq(trace), {})
  {
    visited := map[];
    trace := [];
    var vertices := VertexSet(g);
    RoundsStart(g);
    while vertices != {}
      invariant RoundsInv(g, visited, trace)
      invariant vertices == VertexSet(g) - visited.Keys
      decreases |vertices|
    {
      var v :| v in vertices;
      var r := Dfs(g, v, Some(visited));
      DfsRound(g, v, visited, trace, r);
      visited := r.value.0;
      trace := trace + r.value.1;
      vertices := vertices - visited.Keys;
    }
    RoundsDone(g, visited, trace);
  }
}
