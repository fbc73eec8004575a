/**
 * The depth-first traversal reports what it does through three callbacks
 * (vertexActionOpened, vertexActionClosed, edgeAction).  The model records
 * each callback invocation as an event of a trace; the properties of a
 * traversal are stated on that trace.
 */
module Traces {
  import opened Seqs
  import opened Wrappers
  import opened Graphs

  datatype Event =
    | Open(v: VertexName)    // vertexActionOpened
    | Close(v: VertexName)   // vertexActionClosed
    | Follow(e: Edge)        // edgeAction

  /** The vertices of the Open events, in trace order. */
  function OpenedSeq(t: seq<Event>): seq<VertexName> {
    if t == [] then [] else (if t[0].Open? then [t[0].v] else []) + OpenedSeq(t[1..])
  }

  /** The vertices of the Close events, in trace order. */
  function ClosedSeq(t: seq<Event>): seq<VertexName> {
    if t == [] then [] else (if t[0].Close? then [t[0].v] else []) + ClosedSeq(t[1..])
  }

  /** The destinations of the Follow events, in trace order. */
  function Targets(t: seq<Event>): seq<VertexName> {
    if t == [] then [] else (if t[0].Follow? then [t[0].e.vertexIn] else []) + Targets(t[1..])
  }

  /**
   * One event applied to the stack of currently open vertices (top last):
   * opening pushes, closing must pop the innermost open vertex, and an edge
   * may only be followed out of the innermost open vertex.
   */
  function Step(st: seq<VertexName>, ev: Event): Option<seq<VertexName>> {
    match ev
    case Open(v) => Some(st + [v])
    case Close(v) => if |st| > 0 && st[|st| - 1] == v then Some(st[..|st| - 1]) else None
    case Follow(e) => if |st| > 0 && st[|st| - 1] == e.vertexOut then Some(st) else None
  }

  function Run(t: seq<Event>, st: seq<VertexName>): Option<seq<VertexName>> {
    if t == [] then Some(st)
    else match Step(st, t[0])
      case None => None
      case Some(st') => Run(t[1..], st')
  }

  /** Open and close events are properly nested, every open vertex is closed. */
  ghost predicate WellNested(t: seq<Event>) {
    Run(t, []) == Some([])
  }

  /** Every followed edge is immediately followed by the opening of its destination. */
  ghost predicate EdgesLeadToOpen(t: seq<Event>) {
    && (|t| > 0 ==> !t[|t| - 1].Follow?)
    && forall i, j :: 0 <= i && j == i + 1 && j < |t| && t[i].Follow? ==> t[j] == Open(t[i].e.vertexIn)
  }

  /** Every followed edge is an edge of g. */
  ghost predicate FollowsGraphEdges(g: Graph, t: seq<Event>) {
    forall i :: 0 <= i < |t| && t[i].Follow? ==> t[i].e in g.edges
  }

  lemma {:induction false} ProjectionsConcat(a: seq<Event>, b: seq<Event>)
    ensures OpenedSeq(a + b) == OpenedSeq(a) + OpenedSeq(b)
    ensures ClosedSeq(a + b) == ClosedSeq(a) + ClosedSeq(b)
    ensures Targets(a + b) == Targets(a) + Targets(b)
  {
    if a == [] {
      assert a + b == b;
    } else {
      var t := a + b;
      assert t[0] == a[0] && t[1..] == a[1..] + b;
      ProjectionsConcat(a[1..], b);
      var ho := if a[0].Open? then [a[0].v] else [];
      var hc := if a[0].Close? then [a[0].v] else [];
      var ht := if a[0].Follow? then [a[0].e.vertexIn] else [];
      assert OpenedSeq(t) == ho + OpenedSeq(t[1..]);
      assert OpenedSeq(a) == ho + OpenedSeq(a[1..]);
      assert ho + (OpenedSeq(a[1..]) + OpenedSeq(b)) == (ho + OpenedSeq(a[1..])) + OpenedSeq(b);
      assert ClosedSeq(t) == hc + ClosedSeq(t[1..]);
      assert ClosedSeq(a) == hc + ClosedSeq(a[1..]);
      assert hc + (ClosedSeq(a[1..]) + ClosedSeq(b)) == (hc + ClosedSeq(a[1..])) + ClosedSeq(b);
      assert Targets(t) == ht + Targets(t[1..]);
      assert Targets(a) == ht + Targets(a[1..]);
      assert ht + (Targets(a[1..]) + Targets(b)) == (ht + Targets(a[1..])) + Targets(b);
    }
  }

  lemma {:induction false} RunConcat(a: seq<Event>, b: seq<Event>, st: seq<VertexName>)
    ensures Run(a + b, st) == match Run(a, st) case None => None case Some(m) => Run(b, m)
  {
    if a == [] {
      assert a + b == b;
    } else {
      var t := a + b;
      assert t[0] == a[0] && t[1..] == a[1..] + b;
      match Step(st, a[0])
      case None =>
        assert Run(t, st) == None;
      case Some(st') =>
        assert Run(t, st) == Run(a[1..] + b, st');
        assert Run(a, st) == Run(a[1..], st');
        RunConcat(a[1..], b, st');
    }
  }

  lemma RunSingle(ev: Event, st: seq<VertexName>)
    ensures Run([ev], st) == Step(st, ev)
  {
    assert [ev][1..] == [];
  }

  /** A run does not look below the part of the stack it was started on. */
  lemma {:induction false} RunLift(t: seq<Event>, x: seq<VertexName>, y: seq<VertexName>, p: seq<VertexName>)
    requires Run(t, x) == Some(y)
    ensures Run(t, p + x) == Some(p + y)
  {
    if t == [] {
    } else {
      var m := Step(x, t[0]).value;
      assert Run(t, x) == Run(t[1..], m);
      RunLift(t[1..], m, y, p);
      assert Step(p + x, t[0]) == Some(p + m) by {
        match t[0]
        case Open(v) =>
          assert (p + x) + [v] == p + (x + [v]);
        case Close(v) =>
          assert (p + x)[..|p + x| - 1] == p + x[..|x| - 1];
        case Follow(e) =>
      }
    }
  }

  /** One step: what it opens plus the stack before equals what it closes plus the stack after. */
  lemma StepCounts(x: seq<VertexName>, ev: Event, m: seq<VertexName>)
    requires Step(x, ev) == Some(m)
    ensures forall v :: multiset(if ev.Open? then [ev.v] else [])[v] + multiset(x)[v]
                     == multiset(if ev.Close? then [ev.v] else [])[v] + multiset(m)[v]
  {
    match ev
    case Open(w) =>
      assert m == x + [w];
    case Close(w) =>
      assert x == m + [w];
    case Follow(e) =>
  }

  /** Along a run, what is opened plus the stack it starts on equals what is closed plus the stack it leaves. */
  lemma {:induction false} RunCounts(t: seq<Event>, x: seq<VertexName>, y: seq<VertexName>)
    requires Run(t, x) == Some(y)
    ensures forall v :: multiset(OpenedSeq(t))[v] + multiset(x)[v] == multiset(ClosedSeq(t))[v] + multiset(y)[v]
  {
    if t != [] {
      var m := Step(x, t[0]).value;
      assert Run(t, x) == Run(t[1..], m);
      RunCounts(t[1..], m, y);
      var ho := if t[0].Open? then [t[0].v] else [];
      var hc := if t[0].Close? then [t[0].v] else [];
      assert OpenedSeq(t) == ho + OpenedSeq(t[1..]);
      assert ClosedSeq(t) == hc + ClosedSeq(t[1..]);
      StepCounts(x, t[0], m);
    }
  }

  lemma DistinctMultiset<T>(s: seq<T>)
    ensures Distinct(s) <==> forall x :: multiset(s)[x] <= 1
  {
    if Distinct(s) {
      forall x ensures multiset(s)[x] <= 1 {
        DistinctCount(s, x);
      }
    }
    if forall x :: multiset(s)[x] <= 1 {
      forall i, j | 0 <= i < j < |s| ensures s[i] != s[j] {
        if s[i] == s[j] {
          TwoOccurrences(s, i, j);
        }
      }
    }
  }

  lemma {:induction false} DistinctCount<T>(s: seq<T>, x: T)
    requires Distinct(s)
    ensures multiset(s)[x] <= 1
  {
    if s != [] {
      var t := s[1..];
      assert s == [s[0]] + t;
      assert Distinct(t) by {
        forall i, j | 0 <= i < j < |t| ensures t[i] != t[j] {
          assert t[i] == s[i + 1] && t[j] == s[j + 1];
        }
      }
      DistinctCount(t, x);
      if x == s[0] {
        assert x !in t;
      }
    }
  }

  lemma {:induction false} TwoOccurrences<T>(s: seq<T>, i: int, j: int)
    requires 0 <= i < j < |s| && s[i] == s[j]
    ensures multiset(s)[s[i]] >= 2
  {
    var x := s[i];
    assert s == s[..j] + [x] + s[j + 1..];
    assert s[..j][i] == x;
    assert x in multiset(s[..j]);
  }

  /** A run that leaves the stack as it found it closes exactly what it opens, each once if opened once. */
  lemma BalancedRun(t: seq<Event>, st: seq<VertexName>)
    requires Run(t, st) == Some(st) && Distinct(OpenedSeq(t))
    ensures Distinct(ClosedSeq(t)) && Elems(ClosedSeq(t)) == Elems(OpenedSeq(t))
  {
    RunCounts(t, st, st);
    DistinctMultiset(OpenedSeq(t));
    DistinctMultiset(ClosedSeq(t));
    forall x ensures x in ClosedSeq(t) <==> x in OpenedSeq(t) {
      assert x in ClosedSeq(t) <==> x in multiset(ClosedSeq(t));
      assert x in OpenedSeq(t) <==> x in multiset(OpenedSeq(t));
    }
  }

  /** A well-nested trace opens and closes the same vertices, each once if opened once. */
  lemma WellNestedCloses(t: seq<Event>)
    requires WellNested(t) && Distinct(OpenedSeq(t))
    ensures Distinct(ClosedSeq(t)) && Elems(ClosedSeq(t)) == Elems(OpenedSeq(t))
  {
    BalancedRun(t, []);
  }

  /** Two well-nested traces one after another are well nested. */
  lemma WellNestedConcat(a: seq<Event>, b: seq<Event>)
    requires WellNested(a) && WellNested(b)
    ensures WellNested(a + b)
  {
    RunConcat(a, b, []);
  }

  lemma EdgesLeadToOpenConcat(a: seq<Event>, b: seq<Event>)
    requires EdgesLeadToOpen(a) && EdgesLeadToOpen(b)
    ensures EdgesLeadToOpen(a + b)
  {
    var t := a + b;
    if b != [] {
      assert t[|t| - 1] == b[|b| - 1];
    }
    if a != [] {
      assert t[|a| - 1] == a[|a| - 1];
    }
    forall i, j | 0 <= i && j == i + 1 && j < |t| && t[i].Follow? ensures t[j] == Open(t[i].e.vertexIn) {
      if j < |a| {
        assert t[i] == a[i] && t[j] == a[j];
      } else if i >= |a| {
        assert t[i] == b[i - |a|] && t[j] == b[j - |a|];
      }
    }
  }

  /** An edge reported just before the traversal it leads into. */
  lemma EdgesLeadToOpenCons(e: Edge, b: seq<Event>)
    requires EdgesLeadToOpen(b) && |b| > 0 && b[0] == Open(e.vertexIn)
    ensures EdgesLeadToOpen([Follow(e)] + b)
  {
    var t := [Follow(e)] + b;
    assert t[|t| - 1] == b[|b| - 1];
    forall i, j | 0 <= i && j == i + 1 && j < |t| && t[i].Follow? ensures t[j] == Open(t[i].e.vertexIn) {
      assert t[j] == b[i];
      if i > 0 {
        assert t[i] == b[i - 1];
      }
    }
  }

  lemma FollowsGraphEdgesConcat(g: Graph, a: seq<Event>, b: seq<Event>)
    requires FollowsGraphEdges(g, a) && FollowsGraphEdges(g, b)
    ensures FollowsGraphEdges(g, a + b)
  {
    var t := a + b;
    forall i | 0 <= i < |t| && t[i].Follow? ensures t[i].e in g.edges {
      if i < |a| {
        assert t[i] == a[i];
      } else {
        assert t[i] == b[i - |a|];
      }
    }
  }
}
