/**
 * Weighted walks: distances realised by walks, lower bounds on walk
 * weights, negative cycles, and the two facts the shortest-path algorithms
 * rest on.  A distance map that no edge can improve bounds every walk from
 * below, and any walk can be shortened to one without repeated vertices
 * that is no heavier unless a negative cycle is reachable.
 */
module Walks {
  import opened Seqs
  import opened Graphs

  type Distances = map<VertexName, int>

  /** Some walk from s to v weighs exactly x. */
  ghost predicate HasWalkOfWeight(g: Graph, s: VertexName, v: VertexName, x: int) {
    exists p {:trigger IsWalk(g, p)} :: IsWalk(g, p) && p[0] == s && p[|p| - 1] == v && PathWeight(g, p) == x
  }

  /** Every recorded distance is the weight of a real walk from s. */
  ghost predicate Achieved(g: Graph, s: VertexName, d: Distances) {
    forall v :: v in d ==> HasWalkOfWeight(g, s, v, d[v])
  }

  /** Every walk from s ends at a vertex with a distance no larger than the walk's weight. */
  ghost predicate LowerBounds(g: Graph, s: VertexName, d: Distances) {
    forall p {:trigger IsWalk(g, p)} :: IsWalk(g, p) && p[0] == s ==> p[|p| - 1] in d && d[p[|p| - 1]] <= PathWeight(g, p)
  }

  /** d holds exactly the least walk weights from s, for exactly the vertices s reaches. */
  ghost predicate ShortestDistances(g: Graph, s: VertexName, d: Distances) {
    Achieved(g, s, d) && LowerBounds(g, s, d)
  }

  /** A closed walk of negative weight through a vertex that s reaches. */
  ghost predicate NegativeCycleFrom(g: Graph, s: VertexName) {
    exists c {:trigger IsWalk(g, c)} ::
      IsWalk(g, c) && |c| >= 2 && c[0] == c[|c| - 1] && Reachable(g, s, c[0]) && PathWeight(g, c) < 0
  }

  /** No edge leaving a vertex with a distance can improve its target, which has a distance too. */
  ghost predicate Relaxed(g: Graph, d: Distances) {
    forall e :: e in g.edges && e.vertexOut in d ==> e.vertexIn in d && d[e.vertexIn] <= d[e.vertexOut] + e.weight
  }

  /** No edge between two vertices with distances can improve its target. */
  ghost predicate RelaxedAmongReached(g: Graph, d: Distances) {
    forall e :: e in g.edges && e.vertexOut in d && e.vertexIn in d ==> d[e.vertexIn] <= d[e.vertexOut] + e.weight
  }

  ghost predicate NonNegative(g: Graph) {
    forall e :: e in g.edges ==> e.weight >= 0
  }

  /** GetEdgesWith(e => e.Weight < 0). */
  function NegativeEdgesOf(es: seq<Edge>): (r: seq<Edge>)
    ensures forall e :: e in r <==> e in es && e.weight < 0
  {
    if es == [] then []
    else NegativeEdgesOf(es[..|es| - 1]) + (if es[|es| - 1].weight < 0 then [es[|es| - 1]] else [])
  }

  /** The filter is empty exactly when no weight is negative. */
  lemma NegativeEdgesEmpty(g: Graph)
    ensures |NegativeEdgesOf(g.edges)| == 0 <==> NonNegative(g)
  {
    var r := NegativeEdgesOf(g.edges);
    if |r| > 0 {
      assert r[0] in r;
    }
  }

  // ----- Cutting and joining walks -----

  lemma WalkPrefix(g: Graph, p: seq<VertexName>, k: nat)
    requires IsWalk(g, p) && 1 <= k <= |p|
    ensures IsWalk(g, p[..k])
  {
    var q := p[..k];
    forall i | 0 <= i < |q| - 1 ensures q[i + 1] in Succ(g, q[i]) {
      assert q[i] == p[i] && q[i + 1] == p[i + 1];
    }
  }

  lemma WalkSuffix(g: Graph, p: seq<VertexName>, k: nat)
    requires EndpointsExist(g) && IsWalk(g, p) && k < |p|
    ensures IsWalk(g, p[k..])
  {
    var q := p[k..];
    if k > 0 {
      assert p[k] in Succ(g, p[k - 1]);
    }
    forall i | 0 <= i < |q| - 1 ensures q[i + 1] in Succ(g, q[i]) {
      assert q[i] == p[k + i] && q[i + 1] == p[k + i + 1];
    }
  }

  /** Two walks meeting at a vertex join into one. */
  lemma WalkJoin(g: Graph, a: seq<VertexName>, b: seq<VertexName>)
    requires IsWalk(g, a) && IsWalk(g, b) && a[|a| - 1] == b[0]
    ensures IsWalk(g, a + b[1..])
  {
    var q := a + b[1..];
    forall i | 0 <= i < |q| - 1 ensures q[i + 1] in Succ(g, q[i]) {
      if i < |a| - 1 {
        assert q[i] == a[i] && q[i + 1] == a[i + 1];
      } else {
        assert q[i] == b[i - |a| + 1] && q[i + 1] == b[i - |a| + 2];
      }
    }
  }

  lemma {:induction false} PathWeightJoin(g: Graph, a: seq<VertexName>, b: seq<VertexName>)
    requires |a| >= 1 && |b| >= 1 && a[|a| - 1] == b[0]
    ensures PathWeight(g, a + b[1..]) == PathWeight(g, a) + PathWeight(g, b)
  {
    if |a| == 1 {
      assert a + b[1..] == b;
    } else {
      assert (a + b[1..])[1..] == a[1..] + b[1..];
      PathWeightJoin(g, a[1..], b);
    }
  }

  lemma WalkVertices(g: Graph, p: seq<VertexName>)
    requires EndpointsExist(g) && IsWalk(g, p)
    ensures Elems(p) <= VertexSet(g)
  {
    forall x | x in Elems(p) ensures x in VertexSet(g) {
      var i :| 0 <= i < |p| && p[i] == x;
      if i > 0 {
        assert p[i] in Succ(g, p[i - 1]);
      }
    }
  }

  /** The last edge of a walk weighs what its edge record says. */
  lemma EdgeWeightOf(g: Graph, u: VertexName, v: VertexName) returns (e: Edge)
    requires Valid(g) && v in Succ(g, u)
    ensures e in g.edges && e.vertexOut == u && e.vertexIn == v && EdgeWeight(g, u, v) == e.weight
  {
    e :| e in g.edges && e.vertexOut == u && e.vertexIn == v;
    GetEdgeOfEdge(g, e);
  }

  /** Cutting the closed stretch p[i..j+1] out of p, where p[i] == p[j], leaves a walk with the same ends. */
  lemma CutWalk(g: Graph, p: seq<VertexName>, i: nat, j: nat)
    requires EndpointsExist(g) && IsWalk(g, p) && i < j < |p| && p[i] == p[j]
    ensures IsWalk(g, p[..i + 1] + p[j + 1..]) && IsWalk(g, p[..i + 1]) && IsWalk(g, p[i..j + 1])
  {
    var a, b := p[..i + 1], p[j..];
    WalkPrefix(g, p, i + 1);
    WalkPrefix(g, p, j + 1);
    WalkSuffix(g, p[..j + 1], i);
    assert p[..j + 1][i..] == p[i..j + 1];
    WalkSuffix(g, p, j);
    WalkJoin(g, a, b);
    assert a + b[1..] == p[..i + 1] + p[j + 1..];
  }

  /** The weight of p splits at the two visits of the repeated vertex. */
  lemma CutWeight(g: Graph, p: seq<VertexName>, i: nat, j: nat)
    requires i < j < |p| && p[i] == p[j]
    ensures PathWeight(g, p) == PathWeight(g, p[..i + 1] + p[j + 1..]) + PathWeight(g, p[i..j + 1])
  {
    var a, h, c, b := p[..i + 1], p[..j + 1], p[i..j + 1], p[j..];
    assert a + c[1..] == h;
    assert h + b[1..] == p;
    assert a + b[1..] == p[..i + 1] + p[j + 1..];
    PathWeightJoin(g, a, c);
    PathWeightJoin(g, h, b);
    PathWeightJoin(g, a, b);
  }

  /** Without a negative cycle from s, every closed walk that s reaches weighs at least 0. */
  lemma CycleWeight(g: Graph, s: VertexName, a: seq<VertexName>, c: seq<VertexName>)
    requires !NegativeCycleFrom(g, s)
    requires IsWalk(g, a) && a[0] == s && IsWalk(g, c) && |c| >= 2 && c[0] == c[|c| - 1] && a[|a| - 1] == c[0]
    ensures PathWeight(g, c) >= 0
  {
    assert Reachable(g, s, c[0]);
  }

  /** The stretch cut out is a cycle that p's start reaches. */
  lemma CutCycle(g: Graph, p: seq<VertexName>, i: nat, j: nat)
    requires EndpointsExist(g) && IsWalk(g, p) && i < j < |p| && p[i] == p[j]
    requires !NegativeCycleFrom(g, p[0])
    ensures PathWeight(g, p[..i + 1] + p[j + 1..]) <= PathWeight(g, p)
  {
    CutWalk(g, p, i, j);
    CutWeight(g, p, i, j);
    CycleWeight(g, p[0], p[..i + 1], p[i..j + 1]);
  }

  /**
   * A walk with a repeated vertex loses the closed stretch between the two
   * visits, until no vertex repeats; each stretch cut out is a cycle that p's
   * start reaches, so the result weighs no more unless such a cycle is negative.
   */
  lemma {:induction false} ShortenWalk(g: Graph, p: seq<VertexName>) returns (q: seq<VertexName>)
    requires EndpointsExist(g) && IsWalk(g, p)
    ensures IsWalk(g, q) && q[0] == p[0] && q[|q| - 1] == p[|p| - 1]
    ensures Distinct(q) && |q| <= |p|
    ensures !NegativeCycleFrom(g, p[0]) ==> PathWeight(g, q) <= PathWeight(g, p)
    decreases |p|
  {
    if Distinct(p) {
      return p;
    }
    var i, j :| 0 <= i < j < |p| && p[i] == p[j];
    var r := p[..i + 1] + p[j + 1..];
    CutWalk(g, p, i, j);
    if !NegativeCycleFrom(g, p[0]) {
      CutCycle(g, p, i, j);
    }
    assert r[0] == p[0];
    assert r[|r| - 1] == p[|p| - 1];
    q := ShortenWalk(g, r);
  }

  /** A walk without repeated vertices has at most as many vertices as the graph. */
  lemma SimpleWalkLength(g: Graph, q: seq<VertexName>)
    requires EndpointsExist(g) && IsWalk(g, q) && Distinct(q)
    ensures |q| <= |VertexSet(g)|
  {
    WalkVertices(g, q);
    DistinctWithinCard(q, VertexSet(g));
  }

  // ----- Relaxed distance maps -----

  /** Along a walk from a vertex with a distance, a relaxed map grows by at most the walk's weight. */
  lemma {:induction false} RelaxedWalk(g: Graph, d: Distances, p: seq<VertexName>)
    requires Valid(g) && Relaxed(g, d) && IsWalk(g, p) && p[0] in d
    ensures p[|p| - 1] in d && d[p[|p| - 1]] <= d[p[0]] + PathWeight(g, p)
    decreases |p|
  {
    if |p| > 1 {
      var q := p[..|p| - 1];
      var u, v := q[|q| - 1], p[|p| - 1];
      WalkPrefix(g, p, |p| - 1);
      RelaxedWalk(g, d, q);
      assert v in Succ(g, u) by {
        assert p[|p| - 2] == u;
      }
      var e := EdgeWeightOf(g, u, v);
      assert p == q + [v];
      PathWeightSnoc(g, q, v);
    }
  }

  lemma RelaxedLowerBounds(g: Graph, s: VertexName, d: Distances)
    requires Valid(g) && Relaxed(g, d) && s in d && d[s] <= 0
    ensures LowerBounds(g, s, d)
  {
    forall p | IsWalk(g, p) && p[0] == s ensures p[|p| - 1] in d && d[p[|p| - 1]] <= PathWeight(g, p) {
      RelaxedWalk(g, d, p);
    }
  }

  /** A relaxed map that bounds the walks from s rules out every negative cycle s reaches. */
  lemma RelaxedNoNegativeCycle(g: Graph, s: VertexName, d: Distances)
    requires Valid(g) && Relaxed(g, d) && LowerBounds(g, s, d)
    ensures !NegativeCycleFrom(g, s)
  {
    if NegativeCycleFrom(g, s) {
      var c :| IsWalk(g, c) && |c| >= 2 && c[0] == c[|c| - 1] && Reachable(g, s, c[0]) && PathWeight(g, c) < 0;
      var p :| IsWalk(g, p) && p[0] == s && p[|p| - 1] == c[0];
      RelaxedWalk(g, d, c);
    }
  }

  /** A relaxed map whose distances are walk weights gives the source distance 0. */
  lemma RelaxedSourceZero(g: Graph, s: VertexName, d: Distances)
    requires Valid(g) && Relaxed(g, d) && Achieved(g, s, d) && s in d && d[s] <= 0
    ensures d[s] == 0
  {
    var p :| IsWalk(g, p) && p[0] == s && p[|p| - 1] == s && PathWeight(g, p) == d[s];
    RelaxedWalk(g, d, p);
  }

  /** With exact distances, a vertex has one exactly when s reaches it. */
  lemma ShortestKeys(g: Graph, s: VertexName, d: Distances, v: VertexName)
    requires ShortestDistances(g, s, d)
    ensures v in d <==> Reachable(g, s, v)
  {
    if v in d {
      var p :| IsWalk(g, p) && p[0] == s && p[|p| - 1] == v && PathWeight(g, p) == d[v];
    }
  }

  /** Exact distances are unique: any two maps of least walk weights from s are the same map. */
  lemma ShortestUnique(g: Graph, s: VertexName, d1: Distances, d2: Distances)
    requires ShortestDistances(g, s, d1) && ShortestDistances(g, s, d2)
    ensures d1 == d2
  {
    forall v | v in d1 ensures v in d2 && d2[v] <= d1[v] {
      var p :| IsWalk(g, p) && p[0] == s && p[|p| - 1] == v && PathWeight(g, p) == d1[v];
    }
    forall v | v in d2 ensures v in d1 && d1[v] <= d2[v] {
      var p :| IsWalk(g, p) && p[0] == s && p[|p| - 1] == v && PathWeight(g, p) == d2[v];
    }
  }

  lemma {:induction false} NonNegativeWeight(g: Graph, p: seq<VertexName>)
    requires NonNegative(g)
    ensures PathWeight(g, p) >= 0
  {
    if |p| >= 2 {
      NonNegativeWeight(g, p[1..]);
    }
  }

  /** Without negative weights there is no negative cycle. */
  lemma NonNegativeNoCycle(g: Graph, s: VertexName)
    requires NonNegative(g)
    ensures !NegativeCycleFrom(g, s)
  {
    forall c | IsWalk(g, c) ensures PathWeight(g, c) >= 0 {
      NonNegativeWeight(g, c);
    }
  }
}
