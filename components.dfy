/**
 * Kosaraju's strongly connected components and the Eulerian-cycle test
 * built on them.  The first pass is the all-vertices Dfs of the graph with
 * a close callback pushing each vertex on a stack; the second pops that
 * stack and runs a single-source Dfs of the reversed graph from every
 * popped vertex not yet visited, all rounds sharing one visited map, and
 * collects the vertices each round opens as one component.
 */
module Components {
  import opened Seqs
  import opened Wrappers
  import opened Graphs
  import opened Traces
  import opened DepthFirst

  /**
   * Every component is non-empty, starts with the popped vertex its round
   * ran from, one of `roots`, and every vertex in it reaches that first
   * vertex in g (in the reversed graph the round reached it from there).
   */
  ghost predicate RootedComponents(g: Graph, roots: set<VertexName>, components: seq<seq<VertexName>>) {
    forall i :: 0 <= i < |components| ==>
      && components[i] != []
      && components[i][0] in roots
      && forall x :: x in components[i] ==> Reachable(g, x, components[i][0])
  }

  /** The state of the popping loop: `trace` is what the reversed-graph rounds reported so far. */
  ghost predicate SccInv(g: Graph, rg: Graph, roots: set<VertexName>, stack: seq<VertexName>, visited: Visited,
                         trace: seq<Event>, components: seq<seq<VertexName>>) {
    && rg == ReverseGraph(g)
    && VertexSet(rg) == VertexSet(g)
    && RoundsInv(rg, visited, trace)
    && Flatten(components) == OpenedSeq(trace)
    && RootedComponents(g, roots, components)
    && Elems(stack) <= roots <= VertexSet(g)
    && roots <= visited.Keys + Elems(stack)
    && (g.edges == [] ==> visited.Keys <= roots)
  }

  lemma SccStart(g: Graph, stack: seq<VertexName>)
    requires Elems(stack) <= VertexSet(g)
    ensures SccInv(g, ReverseGraph(g), Elems(stack), stack, map[], [], [])
  {
    ReverseVertexSet(g);
    RoundsStart(ReverseGraph(g));
    var none: seq<seq<VertexName>> := [];
    assert Flatten(none) == [];
  }

  /** Popping a vertex that is already visited. */
  lemma SccSkip(g: Graph, rg: Graph, roots: set<VertexName>, stack: seq<VertexName>, visited: Visited,
                trace: seq<Event>, components: seq<seq<VertexName>>)
    requires SccInv(g, rg, roots, stack, visited, trace, components)
    requires stack != [] && stack[|stack| - 1] in visited
    ensures SccInv(g, rg, roots, stack[..|stack| - 1], visited, trace, components)
  {
    assert stack == stack[..|stack| - 1] + [stack[|stack| - 1]];
    ElemsConcat(stack[..|stack| - 1], [stack[|stack| - 1]]);
  }

  /** The vertices a reversed-graph round from v opens all reach v in g. */
  lemma RoundReachesRoot(g: Graph, v: VertexName, vs: seq<VertexName>)
    requires EndpointsExist(g) && ReachesOpened(ReverseGraph(g), v, vs)
    ensures forall x :: x in vs ==> Reachable(g, x, v)
  {
    forall x | x in vs ensures Reachable(g, x, v) {
      ReverseReachable(g, v, x);
    }
  }

  /** Popping an unvisited vertex: the reversed-graph round `t` from it adds the component it opens. */
  lemma SccAdvance(g: Graph, rg: Graph, roots: set<VertexName>, stack: seq<VertexName>, visited: Visited,
                   trace: seq<Event>, components: seq<seq<VertexName>>, v: VertexName, after: Visited, t: seq<Event>)
    requires EndpointsExist(g)
    requires SccInv(g, rg, roots, stack, visited, trace, components)
    requires stack != [] && v == stack[|stack| - 1]
    requires RoundsInv(rg, after, trace + t)
    requires DfsOutcome(rg, v, visited, after, t)
    ensures SccInv(g, rg, roots, stack[..|stack| - 1], after, trace + t, components + [OpenedSeq(t)])
  {
    var rest := stack[..|stack| - 1];
    assert stack == rest + [v];
    ElemsConcat(rest, [v]);
    RoundKeys(rg, v, visited, after, t);
    RoundReachesRoot(g, v, OpenedSeq(t));
    SccRoundComponents(g, roots, trace, components, t, v);
    if g.edges == [] {
      assert rg.edges == [];
      EdgelessRound(rg, v, t);
    }
  }

  /** The new component is the list of vertices the round opens, v first. */
  lemma SccRoundComponents(g: Graph, roots: set<VertexName>, trace: seq<Event>, components: seq<seq<VertexName>>,
                           t: seq<Event>, v: VertexName)
    requires Flatten(components) == OpenedSeq(trace)
    requires RootedComponents(g, roots, components)
    requires OpenedSeq(t) == [v] + Targets(t) && v in roots
    requires forall x :: x in OpenedSeq(t) ==> Reachable(g, x, v)
    ensures Flatten(components + [OpenedSeq(t)]) == OpenedSeq(trace + t)
    ensures RootedComponents(g, roots, components + [OpenedSeq(t)])
  {
    FlattenSnoc(components, OpenedSeq(t));
    ProjectionsConcat(trace, t);
  }

  /** An empty stack: every root was opened in some round, and only vertices of the graph were. */
  lemma SccDone(g: Graph, rg: Graph, roots: set<VertexName>, visited: Visited, trace: seq<Event>,
                components: seq<seq<VertexName>>)
    requires SccInv(g, rg, roots, [], visited, trace, components)
    ensures Distinct(Flatten(components))
    ensures roots <= Elems(Flatten(components)) <= VertexSet(g)
    ensures g.edges == [] ==> Elems(Flatten(components)) == roots
  {
    var none: seq<VertexName> := [];
    assert Elems(none) == {};
  }

  /**
   * The popping loop: pop each vertex of the first pass's stack, skip it
   * when visited, otherwise run Dfs of the reversed graph from it with the
   * shared map and collect the vertices it opens as one component.
   */
  method CollectComponents(g: Graph, stack0: seq<VertexName>) returns (components: seq<seq<VertexName>>)
    requires Valid(g) && Elems(stack0) <= VertexSet(g)
    ensures RootedComponents(g, Elems(stack0), components)
    ensures Distinct(Flatten(components))
    ensures Elems(stack0) <= Elems(Flatten(components)) <= VertexSet(g)
    ensures g.edges == [] ==> Elems(Flatten(components)) == Elems(stack0)
  {
    var rg := ReverseGraph(g);
    ReverseValid(g);
    var stack := stack0;
    ghost var roots := Elems(stack0);
    var visited: Visited := map[];
    ghost var trace: seq<Event> := [];
    components := [];
    SccStart(g, stack);
    while stack != []
      invariant SccInv(g, rg, roots, stack, visited, trace, components)
      decreases |stack|
    {
      var vertex := stack[|stack| - 1];
      if vertex in visited {
        SccSkip(g, rg, roots, stack, visited, trace, components);
        stack := stack[..|stack| - 1];
        continue;
      }
      var r := Dfs(rg, vertex, Some(visited));
      RoundOk(rg, vertex, visited, r);
      DfsRound(rg, vertex, visited, trace, r);
      SccAdvance(g, rg, roots, stack, visited, trace, components, vertex, r.value.0, r.value.1);
      stack := stack[..|stack| - 1];
      visited := r.value.0;
      trace := trace + r.value.1;
      var component := OpenedSeq(r.value.1);
      components := components + [component];
    }
    SccDone(g, rg, roots, visited, trace, components);
  }

  /**
   * GetStronglyConnectedComponents with the first pass through the
   * corrected all-vertices Dfs: the components are non-empty, every vertex
   * lies in exactly one of them, and every vertex of a component reaches
   * the component's first vertex.
   */
  method GetStronglyConnectedComponents(g: Graph) returns (components: seq<seq<VertexName>>)
    requires Valid(g)
    ensures forall i :: 0 <= i < |components| ==> components[i] != []
    ensures forall i, x :: 0 <= i < |components| && x in components[i] ==>
      components[i] != [] && Reachable(g, x, components[i][0])
    ensures Distinct(Flatten(components))
    ensures Elems(Flatten(components)) == VertexSet(g)
  {
    var firstVisited, firstTrace := DfsAllVertices(g);
    var stack := ClosedSeq(firstTrace);
    components := CollectComponents(g, stack);
  }

  /**
   * GetStronglyConnectedComponents AS WRITTEN: the first pass is the
   * all-vertices Dfs whose loop stops once half of the vertices are
   * visited, so only the vertices it closed (the ghost `closed`) are pushed.
   * The second pass runs over the whole reversed graph, so a component
   * also takes in any unvisited vertex that reaches its root.  On a graph
   * without edges the components hold exactly the closed vertices,
   * (n + 1) / 2 of the n vertices.
   */
  method GetStronglyConnectedComponentsAsWritten(g: Graph) returns (components: seq<seq<VertexName>>, ghost closed: seq<VertexName>)
    requires Valid(g)
    ensures forall i :: 0 <= i < |components| ==> components[i] != []
    ensures forall i, x :: 0 <= i < |components| && x in components[i] ==>
      components[i] != [] && Reachable(g, x, components[i][0])
    ensures Distinct(Flatten(components)) && Elems(Flatten(components)) <= VertexSet(g)
    ensures Distinct(closed) && Elems(closed) <= Elems(Flatten(components))
    ensures 2 * |closed| >= |VertexSet(g)|
    ensures 2 * |Flatten(components)| >= |VertexSet(g)|
    ensures g.edges == [] ==> Elems(Flatten(components)) == Elems(closed)
    ensures g.edges == [] ==> |Flatten(components)| == (|VertexSet(g)| + 1) / 2
  {
    var firstVisited, firstTrace := DfsAllVerticesAsWritten(g);
    var stack := ClosedSeq(firstTrace);
    WellNestedCloses(firstTrace);
    closed := stack;
    DistinctCard(closed);
    components := CollectComponents(g, stack);
    DistinctCard(Flatten(components));
    SubsetCard(firstVisited.Keys, Elems(Flatten(components)));
  }

  /** GetVerticesWith(v => v.DegreeIn != v.DegreeOut). */
  function Unbalanced(vs: seq<Vertex>): (r: seq<Vertex>)
    ensures forall v :: v in r <==> v in vs && v.degreeIn != v.degreeOut
  {
    if vs == [] then []
    else Unbalanced(vs[..|vs| - 1]) + (if vs[|vs| - 1].degreeIn != vs[|vs| - 1].degreeOut then [vs[|vs| - 1]] else [])
  }

  /** No vertex is reported unbalanced exactly when every vertex is balanced. */
  lemma UnbalancedEmpty(g: Graph)
    ensures |Unbalanced(g.vertices)| == 0 <==> AllBalanced(g)
  {
    var r := Unbalanced(g.vertices);
    if |r| > 0 {
      assert r[0] in r;
    }
  }

  /**
   * ContainsEurelianCycle: false when there is more than one component,
   * false when some vertex has different in- and out-degree, true otherwise.
   */
  method ContainsEurelianCycle(g: Graph) returns (b: bool, ghost components: seq<seq<VertexName>>)
    requires Valid(g)
    ensures forall i :: 0 <= i < |components| ==> components[i] != []
    ensures forall i, x :: 0 <= i < |components| && x in components[i] ==>
      components[i] != [] && Reachable(g, x, components[i][0])
    ensures Distinct(Flatten(components)) && Elems(Flatten(components)) == VertexSet(g)
    ensures b <==> |components| <= 1 && AllBalanced(g)
    ensures g.edges == [] ==> (b <==> |VertexSet(g)| <= 1)
  {
    var sccs := GetStronglyConnectedComponents(g);
    components := sccs;
    b := EulerVerdict(g, sccs);
    if g.edges == [] {
      EdgelessBalanced(g);
      EdgelessSingletons(g, sccs);
      DistinctCard(Flatten(sccs));
    }
  }

  /** ContainsEurelianCycle AS WRITTEN, on the components of the as-written first pass. */
  method ContainsEurelianCycleAsWritten(g: Graph) returns (b: bool, ghost components: seq<seq<VertexName>>)
    requires Valid(g)
    ensures forall i :: 0 <= i < |components| ==> components[i] != []
    ensures forall i, x :: 0 <= i < |components| && x in components[i] ==>
      components[i] != [] && Reachable(g, x, components[i][0])
    ensures Distinct(Flatten(components)) && Elems(Flatten(components)) <= VertexSet(g)
    ensures 2 * |Flatten(components)| >= |VertexSet(g)|
    ensures g.edges == [] ==> |Flatten(components)| == (|VertexSet(g)| + 1) / 2
    ensures b <==> |components| <= 1 && AllBalanced(g)
    ensures g.edges == [] ==> (b <==> |VertexSet(g)| <= 2)
  {
    var sccs, closed := GetStronglyConnectedComponentsAsWritten(g);
    components := sccs;
    b := EulerVerdict(g, sccs);
    if g.edges == [] {
      EdgelessBalanced(g);
      EdgelessSingletons(g, sccs);
    }
  }

  /** Without edges every counter of a valid graph is zero, so every vertex is balanced. */
  lemma EdgelessBalanced(g: Graph)
    requires Valid(g) && g.edges == []
    ensures AllBalanced(g)
  {
    forall v | v in g.vertices ensures v.degreeIn == v.degreeOut {
      assert v.degreeOut == CountOut(g.edges, v.name) && v.degreeIn == CountIn(g.edges, v.name);
    }
  }

  /** The tests ContainsEurelianCycle applies to the component list. */
  method EulerVerdict(g: Graph, sccs: seq<seq<VertexName>>) returns (b: bool)
    ensures b <==> |sccs| <= 1 && AllBalanced(g)
  {
    if |sccs| > 1 {
      return false;
    }
    UnbalancedEmpty(g);
    if |Unbalanced(g.vertices)| > 0 {
      return false;
    }
    return true;
  }

  /** On a graph without edges every component holds its first vertex alone. */
  lemma {:induction false} EdgelessSingletons(g: Graph, components: seq<seq<VertexName>>)
    requires g.edges == [] && Distinct(Flatten(components))
    requires forall i, x :: 0 <= i < |components| && x in components[i] ==>
      components[i] != [] && Reachable(g, x, components[i][0])
    requires forall i :: 0 <= i < |components| ==> components[i] != []
    ensures |Flatten(components)| == |components|
  {
    if components != [] {
      var init := components[..|components| - 1];
      var last := components[|components| - 1];
      assert components == init + [last];
      FlattenSnoc(init, last);
      DistinctConcat(Flatten(init), last);
      forall x | x in last ensures x == last[0] {
        EdgelessReach(g, x, last[0]);
      }
      assert Elems(last) == {last[0]};
      DistinctCard(last);
      EdgelessSingletons(g, init);
    }
  }

  lemma TwoIsolatedVerticesValid()
    ensures Valid(TwoIsolatedVertices())
    ensures VertexSet(TwoIsolatedVertices()) == {"A", "B"}
    ensures AllBalanced(TwoIsolatedVertices())
  {
    var g := TwoIsolatedVertices();
    assert Names(g) == ["A", "B"];
  }

  /**
   * On two vertices without edges the as-written test answers true, since
   * its component list covers one vertex only, while the corrected one
   * finds two components and answers false.
   */
  method EulerOnTwoIsolatedVertices() returns (asWritten: bool, corrected: bool)
    ensures asWritten && !corrected
  {
    var g := TwoIsolatedVertices();
    TwoIsolatedVerticesValid();
    ghost var c1, c2;
    asWritten, c1 := ContainsEurelianCycleAsWritten(g);
    EdgelessSingletons(g, c1);
    corrected, c2 := ContainsEurelianCycle(g);
    EdgelessSingletons(g, c2);
    DistinctCard(Flatten(c2));
  }
}
