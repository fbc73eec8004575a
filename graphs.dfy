/**
 * The graph the algorithm suite reads: oriented vertices carrying the two
 * degree counters, weighted oriented edges, and the queries the algorithms
 * call (IsVertex, GetOutEdges, GetOutAdjacentVertices, GetEdge, GetWeight,
 * ReverseGraph).  The storage class that keeps the counters up to date is not
 * part of this model; what it maintains is stated as the predicate Valid.
 */
module Graphs {
  import opened Seqs
  import opened Wrappers

  /** VertexName wraps a label and compares by it. */
  type VertexName = string

  /** OrientedVertex: a name and the degree counters kept by the graph. */
  datatype Vertex = Vertex(name: VertexName, degreeOut: int, degreeIn: int)

  /** A weighted oriented edge; its weight type is fixed to int. */
  datatype Edge = Edge(vertexOut: VertexName, vertexIn: VertexName, weight: int)

  /** Vertices and edges in the order GetVertices and GetEdges enumerate them. */
  datatype Graph = Graph(vertices: seq<Vertex>, edges: seq<Edge>)

  function Names(g: Graph): seq<VertexName> {
    seq(|g.vertices|, i requires 0 <= i < |g.vertices| => g.vertices[i].name)
  }

  function VertexSet(g: Graph): set<VertexName> {
    set v | v in g.vertices :: v.name
  }

  predicate IsVertex(g: Graph, n: VertexName) {
    n in VertexSet(g)
  }

  function CountOut(es: seq<Edge>, n: VertexName): nat {
    if es == [] then 0 else (if es[0].vertexOut == n then 1 else 0) + CountOut(es[1..], n)
  }

  function CountIn(es: seq<Edge>, n: VertexName): nat {
    if es == [] then 0 else (if es[0].vertexIn == n then 1 else 0) + CountIn(es[1..], n)
  }

  ghost predicate EndpointsExist(g: Graph) {
    forall e :: e in g.edges ==> e.vertexOut in VertexSet(g) && e.vertexIn in VertexSet(g)
  }

  /** At most one edge per ordered pair of vertices. */
  ghost predicate UniquePairs(es: seq<Edge>) {
    forall i, j :: 0 <= i < j < |es| ==> es[i].vertexOut != es[j].vertexOut || es[i].vertexIn != es[j].vertexIn
  }

  /** The degree counters equal the numbers of incident edges. */
  ghost predicate DegreesCounted(g: Graph) {
    forall v :: v in g.vertices ==> v.degreeOut == CountOut(g.edges, v.name) && v.degreeIn == CountIn(g.edges, v.name)
  }

  /** What the graph storage maintains between calls; the algorithms assume it. */
  ghost predicate Valid(g: Graph) {
    && Distinct(Names(g))
    && EndpointsExist(g)
    && UniquePairs(g.edges)
    && DegreesCounted(g)
  }

  /** The edge list filtered by source vertex, in enumeration order. */
  function OutEdgesOf(es: seq<Edge>, u: VertexName): (r: seq<Edge>)
    ensures forall e :: e in r <==> e in es && e.vertexOut == u
  {
    if es == [] then [] else (if es[0].vertexOut == u then [es[0]] else []) + OutEdgesOf(es[1..], u)
  }

  function OutEdges(g: Graph, u: VertexName): seq<Edge> {
    OutEdgesOf(g.edges, u)
  }

  function OutAdjacentVertices(g: Graph, u: VertexName): seq<VertexName> {
    var oe := OutEdges(g, u);
    seq(|oe|, i requires 0 <= i < |oe| => oe[i].vertexIn)
  }

  /** The set of destinations of edges leaving u. */
  function Succ(g: Graph, u: VertexName): set<VertexName> {
    set e | e in g.edges && e.vertexOut == u :: e.vertexIn
  }

  function FindEdge(es: seq<Edge>, u: VertexName, v: VertexName): (r: Option<Edge>)
    ensures r.Some? ==> r.value in es && r.value.vertexOut == u && r.value.vertexIn == v
    ensures r.None? ==> forall e :: e in es ==> e.vertexOut != u || e.vertexIn != v
  {
    if es == [] then None
    else if es[0].vertexOut == u && es[0].vertexIn == v then Some(es[0])
    else FindEdge(es[1..], u, v)
  }

  /** GetEdge: the edge from u to v, if there is one. */
  function GetEdge(g: Graph, u: VertexName, v: VertexName): Option<Edge> {
    FindEdge(g.edges, u, v)
  }

  /** GetWeight of an edge; absent edges weigh 0 (only ever asked of edges that exist). */
  function EdgeWeight(g: Graph, u: VertexName, v: VertexName): int {
    match GetEdge(g, u, v)
    case Some(e) => e.weight
    case None => 0
  }

  lemma {:induction false} FindUnique(es: seq<Edge>, e: Edge)
    requires UniquePairs(es) && e in es
    ensures FindEdge(es, e.vertexOut, e.vertexIn) == Some(e)
  {
    if es[0] != e {
      assert e in es[1..];
      assert UniquePairs(es[1..]) by {
        forall i, j | 0 <= i < j < |es[1..]|
          ensures es[1..][i].vertexOut != es[1..][j].vertexOut || es[1..][i].vertexIn != es[1..][j].vertexIn
        {
          assert es[1..][i] == es[i + 1] && es[1..][j] == es[j + 1];
        }
      }
      FindUnique(es[1..], e);
    }
  }

  /** GetEdge and GetWeight return the stored edge and its stored weight. */
  lemma GetEdgeOfEdge(g: Graph, e: Edge)
    requires UniquePairs(g.edges) && e in g.edges
    ensures GetEdge(g, e.vertexOut, e.vertexIn) == Some(e)
    ensures EdgeWeight(g, e.vertexOut, e.vertexIn) == e.weight
  {
    FindUnique(g.edges, e);
  }

  lemma GetEdgeOfSucc(g: Graph, u: VertexName, v: VertexName)
    requires v in Succ(g, u)
    ensures GetEdge(g, u, v).Some?
  {
    var e :| e in g.edges && e.vertexOut == u && e.vertexIn == v;
  }

  lemma OutAdjacentIsSucc(g: Graph, u: VertexName)
    ensures Elems(OutAdjacentVertices(g, u)) == Succ(g, u)
  {
    var oe := OutEdges(g, u);
    var adj := OutAdjacentVertices(g, u);
    forall w | w in Succ(g, u) ensures w in adj {
      var e :| e in g.edges && e.vertexOut == u && e.vertexIn == w;
      var i :| 0 <= i < |oe| && oe[i] == e;
      assert adj[i] == w;
    }
  }

  lemma {:induction false} OutEdgesTargetsDistinct(es: seq<Edge>, u: VertexName)
    requires UniquePairs(es)
    ensures forall i, j :: 0 <= i < j < |OutEdgesOf(es, u)| ==> OutEdgesOf(es, u)[i].vertexIn != OutEdgesOf(es, u)[j].vertexIn
  {
    if es != [] {
      var rest := es[1..];
      assert UniquePairs(rest) by {
        forall i, j | 0 <= i < j < |rest|
          ensures rest[i].vertexOut != rest[j].vertexOut || rest[i].vertexIn != rest[j].vertexIn
        {
          assert rest[i] == es[i + 1] && rest[j] == es[j + 1];
        }
      }
      OutEdgesTargetsDistinct(rest, u);
      var r := OutEdgesOf(rest, u);
      if es[0].vertexOut == u {
        forall j | 0 <= j < |r| ensures r[j].vertexIn != es[0].vertexIn {
          assert r[j] in rest;
          var k :| 0 <= k < |rest| && rest[k] == r[j];
          assert es[k + 1] == r[j];
        }
        assert OutEdgesOf(es, u) == [es[0]] + r;
      } else {
        assert OutEdgesOf(es, u) == r;
      }
    }
  }

  /** GetOutAdjacentVertices lists every out-neighbour once. */
  lemma OutAdjacentDistinct(g: Graph, u: VertexName)
    requires Valid(g)
    ensures Distinct(OutAdjacentVertices(g, u))
  {
    OutEdgesTargetsDistinct(g.edges, u);
  }

  lemma SuccInGraph(g: Graph, u: VertexName)
    requires Valid(g)
    ensures Succ(g, u) <= VertexSet(g)
  {
  }

  // ----- ReverseGraph -----

  function Flip(e: Edge): Edge {
    Edge(e.vertexIn, e.vertexOut, e.weight)
  }

  function FlipAll(es: seq<Edge>): (r: seq<Edge>)
    ensures |r| == |es| && forall i :: 0 <= i < |es| ==> r[i] == Flip(es[i])
  {
    if es == [] then [] else [Flip(es[0])] + FlipAll(es[1..])
  }

  function SwapDegrees(vs: seq<Vertex>): (r: seq<Vertex>)
    ensures |r| == |vs|
    ensures forall i :: 0 <= i < |vs| ==> r[i] == Vertex(vs[i].name, vs[i].degreeIn, vs[i].degreeOut)
  {
    if vs == [] then [] else [Vertex(vs[0].name, vs[0].degreeIn, vs[0].degreeOut)] + SwapDegrees(vs[1..])
  }

  /** ReverseGraph: same vertices with swapped counters, every edge flipped, weights kept. */
  function ReverseGraph(g: Graph): Graph {
    Graph(SwapDegrees(g.vertices), FlipAll(g.edges))
  }

  lemma {:induction false} CountFlip(es: seq<Edge>, n: VertexName)
    ensures CountOut(FlipAll(es), n) == CountIn(es, n)
    ensures CountIn(FlipAll(es), n) == CountOut(es, n)
  {
    if es != [] {
      CountFlip(es[1..], n);
      assert FlipAll(es)[1..] == FlipAll(es[1..]);
    }
  }

  lemma ReverseVertexSet(g: Graph)
    ensures VertexSet(ReverseGraph(g)) == VertexSet(g)
    ensures Names(ReverseGraph(g)) == Names(g)
  {
    var r := ReverseGraph(g);
    forall n | n in VertexSet(g) ensures n in VertexSet(r) {
      var v :| v in g.vertices && v.name == n;
      var i :| 0 <= i < |g.vertices| && g.vertices[i] == v;
      assert r.vertices[i].name == n;
    }
    forall n | n in VertexSet(r) ensures n in VertexSet(g) {
      var v :| v in r.vertices && v.name == n;
      var i :| 0 <= i < |r.vertices| && r.vertices[i] == v;
      assert g.vertices[i].name == n;
    }
  }

  /** The reverse of a valid graph is valid: the storage invariant survives ReverseGraph. */
  lemma ReverseValid(g: Graph)
    requires Valid(g)
    ensures Valid(ReverseGraph(g))
  {
    var r := ReverseGraph(g);
    ReverseVertexSet(g);
    forall e | e in r.edges ensures e.vertexOut in VertexSet(r) && e.vertexIn in VertexSet(r) {
      var i :| 0 <= i < |r.edges| && r.edges[i] == e;
      assert g.edges[i] in g.edges;
    }
    forall v | v in r.vertices ensures v.degreeOut == CountOut(r.edges, v.name) && v.degreeIn == CountIn(r.edges, v.name) {
      var i :| 0 <= i < |r.vertices| && r.vertices[i] == v;
      assert g.vertices[i] in g.vertices;
      CountFlip(g.edges, v.name);
    }
  }

  /** The out-neighbours of u in the reverse graph are the vertices with an edge into u. */
  lemma ReverseSucc(g: Graph, u: VertexName, x: VertexName)
    ensures x in Succ(ReverseGraph(g), u) <==> u in Succ(g, x)
  {
    var r := ReverseGraph(g);
    if x in Succ(r, u) {
      var e :| e in r.edges && e.vertexOut == u && e.vertexIn == x;
      var i :| 0 <= i < |r.edges| && r.edges[i] == e;
      assert g.edges[i] in g.edges;
    }
    if u in Succ(g, x) {
      var e :| e in g.edges && e.vertexOut == x && e.vertexIn == u;
      var i :| 0 <= i < |g.edges| && g.edges[i] == e;
      assert r.edges[i] in r.edges;
    }
  }

  lemma ReverseInvolution(g: Graph)
    ensures ReverseGraph(ReverseGraph(g)) == g
  {
    var rr := ReverseGraph(ReverseGraph(g));
    assert rr.vertices == g.vertices;
    assert rr.edges == g.edges;
  }

  // ----- Walks -----

  /** A walk: a non-empty vertex sequence whose consecutive pairs are edges. */
  ghost predicate IsWalk(g: Graph, p: seq<VertexName>) {
    |p| >= 1 && p[0] in VertexSet(g) && forall i :: 0 <= i < |p| - 1 ==> p[i + 1] in Succ(g, p[i])
  }

  ghost predicate Reachable(g: Graph, x: VertexName, y: VertexName) {
    exists p {:trigger IsWalk(g, p)} :: IsWalk(g, p) && p[0] == x && p[|p| - 1] == y
  }

  /** Reachable along at least one edge. */
  ghost predicate ReachablePlus(g: Graph, x: VertexName, y: VertexName) {
    exists p {:trigger IsWalk(g, p)} :: IsWalk(g, p) && |p| >= 2 && p[0] == x && p[|p| - 1] == y
  }

  /** No walk of one or more edges returns to its start. */
  ghost predicate Acyclic(g: Graph) {
    forall p {:trigger IsWalk(g, p)} :: IsWalk(g, p) && |p| >= 2 ==> p[0] != p[|p| - 1]
  }

  /** The sum of the weights of the consecutive edges of p. */
  function PathWeight(g: Graph, p: seq<VertexName>): int {
    if |p| < 2 then 0 else EdgeWeight(g, p[0], p[1]) + PathWeight(g, p[1..])
  }

  lemma WalkSnoc(g: Graph, p: seq<VertexName>, w: VertexName)
    requires IsWalk(g, p) && w in Succ(g, p[|p| - 1])
    ensures IsWalk(g, p + [w])
  {
    var q := p + [w];
    forall i | 0 <= i < |q| - 1 ensures q[i + 1] in Succ(g, q[i]) {
      if i < |p| - 1 {
        assert q[i] == p[i] && q[i + 1] == p[i + 1];
      }
    }
  }

  lemma WalkCons(g: Graph, u: VertexName, p: seq<VertexName>)
    requires IsWalk(g, p) && p[0] in Succ(g, u) && u in VertexSet(g)
    ensures IsWalk(g, [u] + p)
  {
    var q := [u] + p;
    forall i | 0 <= i < |q| - 1 ensures q[i + 1] in Succ(g, q[i]) {
      if i > 0 {
        assert q[i] == p[i - 1] && q[i + 1] == p[i];
      }
    }
  }

  lemma ReachableStep(g: Graph, x: VertexName, y: VertexName, z: VertexName)
    requires Reachable(g, x, y) && z in Succ(g, y)
    ensures Reachable(g, x, z) && ReachablePlus(g, x, z)
  {
    var p :| IsWalk(g, p) && p[0] == x && p[|p| - 1] == y;
    WalkSnoc(g, p, z);
    assert (p + [z])[0] == x;
  }

  /** An edge s -> w followed by a walk from w. */
  lemma ReachableThrough(g: Graph, s: VertexName, w: VertexName, x: VertexName)
    requires s in VertexSet(g) && w in Succ(g, s) && Reachable(g, w, x)
    ensures Reachable(g, s, x)
  {
    var p :| IsWalk(g, p) && p[0] == w && p[|p| - 1] == x;
    WalkCons(g, s, p);
    assert ([s] + p)[0] == s && ([s] + p)[|[s] + p| - 1] == x;
  }

  /** A sequence whose every step is an edge of g taken backwards, read backwards, is a walk of g. */
  lemma BackwardsWalk(g: Graph, p: seq<VertexName>)
    requires EndpointsExist(g) && |p| >= 1 && p[|p| - 1] in VertexSet(g)
    requires forall i :: 0 <= i < |p| - 1 ==> p[i] in Succ(g, p[i + 1])
    ensures Reachable(g, p[|p| - 1], p[0])
  {
    var n := |p|;
    var q := seq(n, i requires 0 <= i < n => p[n - 1 - i]);
    forall i | 0 <= i < n - 1 ensures q[i + 1] in Succ(g, q[i]) {
      assert q[i] == p[n - 1 - i] && q[i + 1] == p[n - 2 - i];
      assert p[n - 2 - i] in Succ(g, p[n - 1 - i]);
    }
    assert IsWalk(g, q);
  }

  /** A walk of the reverse graph, read backwards, is a walk of the graph. */
  lemma ReverseReachable(g: Graph, x: VertexName, y: VertexName)
    requires EndpointsExist(g) && Reachable(ReverseGraph(g), x, y)
    ensures Reachable(g, y, x)
  {
    var rg := ReverseGraph(g);
    var p :| IsWalk(rg, p) && p[0] == x && p[|p| - 1] == y;
    forall i | 0 <= i < |p| - 1 ensures p[i] in Succ(g, p[i + 1]) {
      assert p[i + 1] in Succ(rg, p[i]);
      ReverseSucc(g, p[i], p[i + 1]);
    }
    if |p| > 1 {
      assert p[|p| - 2] in Succ(g, p[|p| - 1]);
      var e :| e in g.edges && e.vertexOut == p[|p| - 1] && e.vertexIn == p[|p| - 2];
    } else {
      ReverseVertexSet(g);
    }
    BackwardsWalk(g, p);
  }

  /** Every vertex of a walk that starts in a set closed under out-edges lies in that set. */
  lemma {:induction false} WalkStaysIn(g: Graph, vs: set<VertexName>, p: seq<VertexName>, k: nat)
    requires IsWalk(g, p) && p[0] in vs && k < |p|
    requires forall u :: u in vs ==> Succ(g, u) <= vs
    ensures p[k] in vs
  {
    if k > 0 {
      WalkStaysIn(g, vs, p, k - 1);
      assert p[k] in Succ(g, p[k - 1]);
    }
  }

  /** Without edges a vertex reaches only itself. */
  lemma EdgelessReach(g: Graph, x: VertexName, y: VertexName)
    requires g.edges == [] && Reachable(g, x, y)
    ensures x == y
  {
    var p :| IsWalk(g, p) && p[0] == x && p[|p| - 1] == y;
    assert Succ(g, x) == {};
    WalkStaysIn(g, {x}, p, |p| - 1);
  }

  lemma ReachablePlusStep(g: Graph, x: VertexName, y: VertexName, z: VertexName)
    requires ReachablePlus(g, x, y) && z in Succ(g, y)
    ensures ReachablePlus(g, x, z)
  {
    var p :| IsWalk(g, p) && |p| >= 2 && p[0] == x && p[|p| - 1] == y;
    WalkSnoc(g, p, z);
    assert (p + [z])[0] == x;
  }

  lemma ReachableRefl(g: Graph, x: VertexName)
    requires x in VertexSet(g)
    ensures Reachable(g, x, x)
  {
    assert IsWalk(g, [x]);
  }

  /** In an acyclic graph no vertex reaches itself, not even along one edge. */
  lemma AcyclicNoSelfReach(g: Graph, x: VertexName)
    requires Acyclic(g)
    ensures !ReachablePlus(g, x, x)
  {
  }

  /** A set of vertices closed under out-edges contains every walk that starts in it. */
  lemma {:induction false} ClosedSetContainsWalk(g: Graph, s: set<VertexName>, p: seq<VertexName>)
    requires Valid(g) && IsWalk(g, p) && p[0] in s
    requires forall u :: u in s ==> Succ(g, u) <= s
    ensures p[|p| - 1] in s
  {
    if |p| > 1 {
      SuccInGraph(g, p[0]);
      var q := p[1..];
      assert p[1] in Succ(g, p[0]);
      assert IsWalk(g, q) by {
        forall i | 0 <= i < |q| - 1 ensures q[i + 1] in Succ(g, q[i]) {
          assert q[i] == p[i + 1] && q[i + 1] == p[i + 2];
        }
      }
      ClosedSetContainsWalk(g, s, q);
    }
  }

  lemma {:induction false} PathWeightSnoc(g: Graph, p: seq<VertexName>, w: VertexName)
    requires |p| >= 1
    ensures PathWeight(g, p + [w]) == PathWeight(g, p) + EdgeWeight(g, p[|p| - 1], w)
  {
    if |p| > 1 {
      assert (p + [w])[1..] == p[1..] + [w];
      PathWeightSnoc(g, p[1..], w);
    }
  }

  // ----- Degree counters -----

  /** No vertex whose in-degree differs from its out-degree (GetVerticesWith returns nothing). */
  ghost predicate AllBalanced(g: Graph) {
    forall v :: v in g.vertices ==> v.degreeIn == v.degreeOut
  }

  /** On a valid graph the counters say what the edges say. */
  lemma BalancedByEdges(g: Graph)
    requires Valid(g)
    ensures AllBalanced(g) <==> forall n :: n in VertexSet(g) ==> CountIn(g.edges, n) == CountOut(g.edges, n)
  {
    if AllBalanced(g) {
      forall n | n in VertexSet(g) ensures CountIn(g.edges, n) == CountOut(g.edges, n) {
        var v :| v in g.vertices && v.name == n;
      }
    }
    if forall n :: n in VertexSet(g) ==> CountIn(g.edges, n) == CountOut(g.edges, n) {
      forall v | v in g.vertices ensures v.degreeIn == v.degreeOut {
        assert v.name in VertexSet(g);
      }
    }
  }
}
