/**
 * TopologicalSorting and IsDag.  IsDag runs the all-vertices Dfs with a
 * close callback pushing each vertex on a stack and hands the stack out as
 * a list, top first: the vertices in reverse close order.  The boolean it
 * should return is never computed (the method has no return statement), so
 * the model leaves it an arbitrary choice and states what holds of the list
 * whatever the verdict.
 */
module Topological {
  import opened Seqs
  import opened Wrappers
  import opened Graphs
  import opened Traces
  import opened DepthFirst

  /** Every edge goes forward in the sequence: the successors of a vertex all come after it. */
  ghost predicate TopologicalOrder(g: Graph, order: seq<VertexName>) {
    forall i :: 0 <= i < |order| ==> Succ(g, order[i]) <= Elems(order[i + 1..])
  }

  /** The reverse of a close order in which successors close first is a topological order. */
  lemma TopoReverse(g: Graph, c: seq<VertexName>)
    requires TopoClosed(g, c, {})
    ensures TopologicalOrder(g, Rev(c))
  {
    var n := |c|;
    forall i | 0 <= i < n ensures Succ(g, Rev(c)[i]) <= Elems(Rev(c)[i + 1..]) {
      var m := n - 1 - i;
      RevAt(c, i);
      RevSuffix(c, m);
      RevElems(c[..m]);
      assert Succ(g, c[m]) <= {} + Elems(c[..m]);
    }
  }

  /** The position of x in a repetition-free sequence. */
  ghost function IndexOf(o: seq<VertexName>, x: VertexName): (i: nat)
    requires x in o
    ensures i < |o| && o[i] == x
  {
    var i :| 0 <= i < |o| && o[i] == x; i
  }

  /** Along a walk, every vertex after the first sits later in a topological order than the first. */
  lemma {:induction false} WalkGoesForward(g: Graph, o: seq<VertexName>, p: seq<VertexName>, k: nat)
    requires TopologicalOrder(g, o) && Distinct(o)
    requires IsWalk(g, p) && p[0] in o && 1 <= k < |p|
    ensures p[k] in o && IndexOf(o, p[k]) > IndexOf(o, p[0])
  {
    var prev := p[k - 1];
    if k > 1 {
      WalkGoesForward(g, o, p, k - 1);
    }
    var i := IndexOf(o, prev);
    assert p[k] in Succ(g, o[i]);
    assert p[k] in Elems(o[i + 1..]);
    var j :| 0 <= j < |o[i + 1..]| && o[i + 1..][j] == p[k];
    assert o[i + 1 + j] == p[k];
    assert IndexOf(o, p[k]) == i + 1 + j;
  }

  /** A repetition-free topological order of all the vertices rules out every cycle. */
  lemma OrderAcyclic(g: Graph, o: seq<VertexName>)
    requires TopologicalOrder(g, o) && Distinct(o) && VertexSet(g) <= Elems(o)
    ensures Acyclic(g)
  {
    forall p | IsWalk(g, p) && |p| >= 2 ensures p[0] != p[|p| - 1] {
      assert p[0] in Elems(o);
      WalkGoesForward(g, o, p, |p| - 1);
    }
  }

  /**
   * IsDag: the list holds every vertex once, and it is a topological order
   * exactly when the graph is acyclic.  The verdict is left unconstrained.
   */
  method IsDag(g: Graph) returns (dag: bool, topologicalSorting: seq<VertexName>)
    requires EndpointsExist(g)
    ensures Distinct(topologicalSorting) && Elems(topologicalSorting) == VertexSet(g)
    ensures Acyclic(g) <==> TopologicalOrder(g, topologicalSorting)
  {
    var visited, trace := DfsAllVertices(g);
    var stack := ClosedSeq(trace);
    topologicalSorting := Rev(stack);
    RevElems(stack);
    if Acyclic(g) {
      TopoReverse(g, stack);
    }
    if TopologicalOrder(g, topologicalSorting) {
      OrderAcyclic(g, topologicalSorting);
    }
    dag :| true;
  }

  /**
   * IsDag AS WRITTEN, through the all-vertices Dfs that stops once half of
   * the vertices are visited: the list holds only the vertices of the
   * rounds that ran, each once, and still goes forward along every edge
   * when the graph is acyclic.
   */
  method IsDagAsWritten(g: Graph) returns (dag: bool, topologicalSorting: seq<VertexName>)
    requires EndpointsExist(g)
    ensures Distinct(topologicalSorting) && Elems(topologicalSorting) <= VertexSet(g)
    ensures 2 * |topologicalSorting| >= |VertexSet(g)|
    ensures g.edges == [] ==> |topologicalSorting| == (|VertexSet(g)| + 1) / 2
    ensures Acyclic(g) ==> TopologicalOrder(g, topologicalSorting)
  {
    var visited, trace := DfsAllVerticesAsWritten(g);
    var stack := ClosedSeq(trace);
    WellNestedCloses(trace);
    DistinctCard(stack);
    topologicalSorting := Rev(stack);
    RevElems(stack);
    if Acyclic(g) {
      TopoReverse(g, stack);
    }
    dag :| true;
  }

  /** On two vertices without edges the as-written list names one vertex of two. */
  method IsDagOnTwoIsolatedVertices() returns (asWritten: seq<VertexName>, corrected: seq<VertexName>)
    ensures |VertexSet(TwoIsolatedVertices())| == 2
    ensures |asWritten| == 1 && |corrected| == 2
  {
    var g := TwoIsolatedVertices();
    assert Names(g) == ["A", "B"];
    assert VertexSet(g) == {"A", "B"};
    var dag1, dag2;
    dag1, asWritten := IsDagAsWritten(g);
    dag2, corrected := IsDag(g);
    DistinctCard(corrected);
  }

  /**
   * TopologicalSorting: GraphIsNotDag exactly when IsDag says false, and
   * otherwise IsDag's list.
   */
  method TopologicalSorting(g: Graph) returns (r: Result<seq<VertexName>>, ghost verdict: bool)
    requires EndpointsExist(g)
    ensures r.Err? <==> !verdict
    ensures r.Err? ==> r.error == GraphIsNotDag
    ensures r.Ok? ==> Distinct(r.value) && Elems(r.value) == VertexSet(g)
    ensures r.Ok? ==> (Acyclic(g) <==> TopologicalOrder(g, r.value))
  {
    var dag, topologicalSorting := IsDag(g);
    verdict := dag;
    if !dag {
      return Err(GraphIsNotDag), verdict;
    }
    return Ok(topologicalSorting), verdict;
  }
}
