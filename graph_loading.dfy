/** The two loaders of util/GraphLoader.kt that fill a teaching graph from a
    file: `loadGraph` (a vertex count, then one edge per line) and
    `loadRoutes` (one airport vertex per route end, labelled with the
    airport code, and one edge per route). The file is given as the records
    it contains. The graph is a `GraphAdjList`; the calls the loaders make
    are the `Op`s of module Representations, so the matrix representation
    given the same calls answers the same. */
module GraphLoading {
  import opened Wrappers
  import opened BasicGraphs
  import opened AdjacencyLists
  import opened Representations

  /** The counters and lists of `g` as a value. */
  function StateOf(g: GraphAdjList): ListGraph
    reads g`adjListsMap, g.base`numVertices, g.base`numEdges
  {
    ListGraph(g.adjListsMap, g.base.numVertices, g.base.numEdges)
  }

  /** The state `ops` lead to from `s`, one call after the other. */
  function ListSteps(s: ListGraph, ops: seq<Op>): ListGraph {
    if ops == [] then s else ListStep(ListSteps(s, ops[..|ops| - 1]), ops[|ops| - 1])
  }

  /** Running calls one batch after another is running them all. */
  lemma {:induction false} ListStepsAppend(s: ListGraph, a: seq<Op>, b: seq<Op>)
    ensures ListSteps(s, a + b) == ListSteps(ListSteps(s, a), b)
  {
    if b != [] {
      var m := |b| - 1;
      assert (a + b)[..|a + b| - 1] == a + b[..m];
      ListStepsAppend(s, a, b[..m]);
    } else {
      assert a + b == a;
    }
  }

  /** From an empty graph the calls give what `ListRun` gives. */
  lemma {:induction false} ListStepsFromEmpty(ops: seq<Op>)
    ensures ListSteps(ListGraph(map[], 0, 0), ops) == ListRun(ops)
  {
    if ops != [] {
      ListStepsFromEmpty(ops[..|ops| - 1]);
    }
  }

  lemma {:induction false} ListStepsSnoc(s: ListGraph, ops: seq<Op>, op: Op)
    ensures ListSteps(s, ops + [op]) == ListStep(ListSteps(s, ops), op)
  {
    assert (ops + [op])[..|ops|] == ops;
  }

  /** One `addVertex()` or `addEdge(v, w)` call on `g`; an edge with an end
      at or above the vertex count throws. */
  method Apply(g: GraphAdjList, op: Op) returns (o: Outcome)
    requires g.Valid()
    modifies g, g.base
    ensures g.Valid() && g.base.vertexLabels == old(g.base.vertexLabels)
    ensures StateOf(g) == ListStep(old(StateOf(g)), op)
    ensures o.Pass? <==> (op.AddEdge? ==> op.v < old(g.base.numVertices) && op.w < old(g.base.numVertices))
    ensures o.Fail? ==> o.error == IndexOutOfBounds
  {
    match op
    case AddVertex =>
      var _ := g.AddVertex();
      o := Pass;
    case AddEdge(v, w) =>
      o := g.AddEdge(v, w);
  }

  /** `k` calls of `addVertex`. */
  function VertexOps(k: nat): (ops: seq<Op>)
    ensures |ops| == k
  {
    if k == 0 then [] else VertexOps(k - 1) + [AddVertex]
  }

  lemma {:induction false} VertexOpsCalls(k: nat)
    ensures forall i :: 0 <= i < k ==> VertexOps(k)[i] == AddVertex
  {
    if k > 0 {
      VertexOpsCalls(k - 1);
    }
  }

  /** One `addEdge` call per pair. */
  function EdgeOps(edges: seq<(int, int)>): (ops: seq<Op>)
    ensures |ops| == |edges|
  {
    if edges == [] then [] else EdgeOps(edges[..|edges| - 1]) + [AddEdge(edges[|edges| - 1].0, edges[|edges| - 1].1)]
  }

  lemma {:induction false} EdgeOpsCalls(edges: seq<(int, int)>)
    ensures forall i :: 0 <= i < |edges| ==> EdgeOps(edges)[i] == AddEdge(edges[i].0, edges[i].1)
  {
    if edges != [] {
      var m := |edges| - 1;
      EdgeOpsCalls(edges[..m]);
    }
  }

  /** How many leading pairs have both ends below `n`. */
  function InRangePrefix(edges: seq<(int, int)>, n: int): (k: nat)
    ensures k <= |edges|
    ensures forall i :: 0 <= i < k ==> edges[i].0 < n && edges[i].1 < n
    ensures k < |edges| ==> !(edges[k].0 < n && edges[k].1 < n)
  {
    if edges == [] || !(edges[0].0 < n && edges[0].1 < n) then 0
    else
      var k := InRangePrefix(edges[1..], n);
      assert forall i :: 1 <= i < k + 1 ==> edges[i] == edges[1..][i - 1];
      1 + k
  }

  /** `for (i in 0 until count) theGraph.addVertex()`. */
  method AddVertices(g: GraphAdjList, count: int)
    requires g.Valid()
    modifies g, g.base
    ensures g.Valid() && g.base.vertexLabels == old(g.base.vertexLabels)
    ensures StateOf(g) == ListSteps(old(StateOf(g)), VertexOps(if count > 0 then count else 0))
    ensures g.base.numVertices == old(g.base.numVertices) + (if count > 0 then count else 0)
  {
    ghost var s0 := StateOf(g);
    var i := 0;
    while i < count
      invariant g.Valid() && g.base.vertexLabels == old(g.base.vertexLabels)
      invariant 0 <= i <= (if count > 0 then count else 0)
      invariant StateOf(g) == ListSteps(s0, VertexOps(i))
      invariant g.base.numVertices == s0.numVertices + i
    {
      var _ := Apply(g, AddVertex);
      ListStepsSnoc(s0, VertexOps(i), AddVertex);
      i := i + 1;
    }
  }

  /** The pairs `addEdge` is called with: all of them, or those up to and
      including the first one with an end at or above `n`. */
  function Attempted(edges: seq<(int, int)>, n: int): seq<(int, int)> {
    var loaded := InRangePrefix(edges, n);
    edges[..if loaded == |edges| then loaded else loaded + 1]
  }

  /** `theGraph.addEdge(start, end)` for each pair in order, until one
      throws. */
  method AddEdges(g: GraphAdjList, edges: seq<(int, int)>) returns (o: Outcome)
    requires g.Valid()
    modifies g, g.base
    ensures g.Valid() && g.base.vertexLabels == old(g.base.vertexLabels)
    ensures var loaded := InRangePrefix(edges, old(g.base.numVertices));
            && (o.Pass? <==> loaded == |edges|)
            && (o.Fail? ==> o.error == IndexOutOfBounds)
            && StateOf(g) == ListSteps(old(StateOf(g)), EdgeOps(Attempted(edges, old(g.base.numVertices))))
  {
    ghost var s0 := StateOf(g);
    ghost var n := g.base.numVertices;
    var j := 0;
    assert edges[..0] == [];
    while j < |edges|
      invariant g.Valid() && g.base.vertexLabels == old(g.base.vertexLabels)
      invariant g.base.numVertices == n
      invariant j <= InRangePrefix(edges, n)
      invariant StateOf(g) == ListSteps(s0, EdgeOps(edges[..j]))
    {
      InRangeStep(edges, n, j);
      o := Apply(g, AddEdge(edges[j].0, edges[j].1));
      EdgeOpsSnoc(edges, j);
      ListStepsSnoc(s0, EdgeOps(edges[..j]), AddEdge(edges[j].0, edges[j].1));
      if o.Fail? {
        return;
      }
      j := j + 1;
    }
    assert edges[..j] == edges;
    o := Pass;
  }

  /** The next pair is in range exactly when the in-range prefix goes on. */
  lemma InRangeStep(edges: seq<(int, int)>, n: int, j: nat)
    requires j <= InRangePrefix(edges, n) && j < |edges|
    ensures (edges[j].0 < n && edges[j].1 < n) <==> j < InRangePrefix(edges, n)
  {
  }

  lemma {:induction false} EdgeOpsSnoc(edges: seq<(int, int)>, j: nat)
    requires j < |edges|
    ensures EdgeOps(edges[..j + 1]) == EdgeOps(edges[..j]) + [AddEdge(edges[j].0, edges[j].1)]
  {
    assert edges[..j + 1][..j] == edges[..j];
  }

  /** `loadGraph`: `count` vertices (none for a count below one), then one
      edge per pair in file order. An edge end at or above the vertex count
      throws out of the loader, after the edge counter has counted that
      edge; the edges before it stay. */
  method LoadGraph(count: int, edges: seq<(int, int)>, g: GraphAdjList) returns (o: Outcome)
    requires g.Valid()
    modifies g, g.base
    ensures g.Valid() && g.base.vertexLabels == old(g.base.vertexLabels)
    ensures var k := if count > 0 then count else 0;
            var loaded := InRangePrefix(edges, old(g.base.numVertices) + k);
            && (o.Pass? <==> loaded == |edges|)
            && (o.Fail? ==> o.error == IndexOutOfBounds)
            && StateOf(g) == ListSteps(ListSteps(old(StateOf(g)), VertexOps(k)), EdgeOps(Attempted(edges, old(g.base.numVertices) + k)))
  {
    ghost var s0 := StateOf(g);
    ghost var k := if count > 0 then count else 0;
    AddVertices(g, count);
    ghost var s1 := StateOf(g);
    assert s1 == ListSteps(s0, VertexOps(k)) && s1.numVertices == s0.numVertices + k;
    o := AddEdges(g, edges);
  }

  /** The vertices and calls for the routes, with the airports in the order
      they first appear. */
  datatype Plan<T> = Plan(ops: seq<Op>, names: seq<T>)

  /** An airport that already has a vertex keeps it; a new one gets the
      next vertex. */
  function Visit<T(==)>(p: Plan<T>, s: T): (r: Plan<T>)
    ensures s in r.names
  {
    if s in p.names then p else Plan(p.ops + [AddVertex], p.names + [s])
  }

  /** The calls `loadRoutes` makes for `routes` (source and destination
      code pairs) on a graph that had `n0` vertices, and the airports it
      labels. */
  function RoutePlan<T(==)>(routes: seq<(T, T)>, n0: nat): Plan<T> {
    if routes == [] then Plan([], [])
    else
      var k := |routes| - 1;
      RouteStep(RoutePlan(routes[..k], n0), routes[k].0, routes[k].1, n0)
  }

  /** The plan for the routes ends with the step of the last one. */
  lemma RoutePlanLast<T>(routes: seq<(T, T)>, n0: nat)
    requires routes != []
    ensures var k := |routes| - 1;
            RoutePlan(routes, n0) == RouteStep(RoutePlan(routes[..k], n0), routes[k].0, routes[k].1, n0)
  {
  }

  /** The plan for one route more. */
  lemma RoutePlanSnoc<T>(routes: seq<(T, T)>, i: nat, n0: nat)
    requires i < |routes|
    ensures RoutePlan(routes[..i + 1], n0) == RouteStep(RoutePlan(routes[..i], n0), routes[i].0, routes[i].1, n0)
  {
    assert routes[..i + 1][..i] == routes[..i];
  }

  /** One route: the vertices of both ends, then the edge between them. */
  function RouteStep<T(==)>(p: Plan<T>, source: T, destination: T, n0: nat): Plan<T> {
    var q := Visit(Visit(p, source), destination);
    Plan(q.ops + [AddEdge(n0 + IndexOf(q.names, source), n0 + IndexOf(q.names, destination))], q.names)
  }

  /** The label map of `loadRoutes`: airport `names[i]` on vertex `n0 + i`. */
  function Labelling<T>(names: seq<T>, n0: nat): (r: map<int, T>)
    ensures forall v :: v in r <==> n0 <= v < n0 + |names|
    ensures forall v :: v in r ==> r[v] == names[v - n0]
  {
    if names == [] then map[]
    else
      var k := |names| - 1;
      Labelling(names[..k], n0)[n0 + k := names[k]]
  }

  /** The next airport goes on the next vertex. */
  lemma LabellingSnoc<T>(names: seq<T>, n0: nat, x: T)
    ensures Labelling(names + [x], n0) == Labelling(names, n0)[n0 + |names| := x]
  {
    assert (names + [x])[..|names|] == names;
  }

  /** A labelled airport is found by its label. */
  lemma {:induction false} LabelKnown<T>(names: seq<T>, n0: nat, s: T)
    ensures s in names ==> exists v :: v in Labelling(names, n0) && Labelling(names, n0)[v] == s
  {
    if s in names {
      assert Labelling(names, n0)[n0 + IndexOf(names, s)] == s;
    }
  }

  /** Without repeats, the vertex carrying a label is the one of its
      airport. */
  lemma {:induction false} LabelFound<T>(names: seq<T>, n0: nat, s: T, v: int)
    requires NoRepeats(names) && v in Labelling(names, n0) && Labelling(names, n0)[v] == s
    ensures s in names && v == n0 + IndexOf(names, s)
  {
    NoRepeatsIndex(names, v - n0, IndexOf(names, s));
  }

  /** An airport without a vertex gets the next one, and its label. */
  lemma {:induction false} LabelNew<T>(p: Plan<T>, n0: nat, s: T)
    requires s !in p.names
    ensures var names := p.names + [s];
            && Visit(p, s) == Plan(p.ops + [AddVertex], names)
            && IndexOf(names, s) == |p.names|
            && n0 + |p.names| !in Labelling(p.names, n0)
            && Labelling(names, n0) == Labelling(p.names, n0)[n0 + |p.names| := s]
  {
    LabellingSnoc(p.names, n0, s);
    assert (p.names + [s])[|p.names|] == s;
  }

  /** The calls after visiting an airport: one `addVertex` more when it
      is new. */
  lemma {:induction false} VisitSteps<T>(s0: ListGraph, p: Plan<T>, x: T)
    ensures ListSteps(s0, Visit(p, x).ops)
         == if x in p.names then ListSteps(s0, p.ops) else ListStep(ListSteps(s0, p.ops), AddVertex)
  {
    if x !in p.names {
      ListStepsSnoc(s0, p.ops, AddVertex);
    }
  }

  /** Visiting an airport leaves the vertex of a known one where it was. */
  lemma {:induction false} VisitIndex<T>(p: Plan<T>, x: T, y: T)
    requires y in p.names
    ensures IndexOf(Visit(p, x).names, y) == IndexOf(p.names, y)
  {
    if x !in p.names {
      IndexOfSnoc(p.names, x, y);
    }
  }

  /** The `addEdge` call of a route joins the vertices of its two ends. */
  lemma RouteStepEdge<T>(p: Plan<T>, source: T, destination: T, n0: nat, v: int, w: int)
    requires var q := Visit(Visit(p, source), destination);
             v == n0 + IndexOf(q.names, source) && w == n0 + IndexOf(q.names, destination)
    ensures var q := Visit(Visit(p, source), destination);
            && RouteStep(p, source, destination, n0).ops == q.ops + [AddEdge(v, w)]
            && RouteStep(p, source, destination, n0).names == q.names
  {
  }

  /** The two ends of a route, as positions among the airports after
      both are visited. */
  lemma {:induction false} RouteStepEnds<T>(p: Plan<T>, source: T, destination: T, n0: nat, q: Plan<T>) returns (i: nat, j: nat)
    requires q == RouteStep(p, source, destination, n0)
    ensures var p2 := Visit(Visit(p, source), destination);
            && i < |p2.names| && j < |p2.names| && p2.names[i] == source && p2.names[j] == destination
            && q.ops == p2.ops + [AddEdge(n0 + i, n0 + j)] && q.names == p2.names
  {
    var p2 := Visit(Visit(p, source), destination);
    i, j := IndexOf(p2.names, source), IndexOf(p2.names, destination);
  }

  /** Every code that starts or ends a route. */
  function Airports<T>(routes: seq<(T, T)>): set<T> {
    (set r | r in routes :: r.0) + (set r | r in routes :: r.1)
  }

  lemma {:induction false} AirportsSnoc<T>(routes: seq<(T, T)>, r: (T, T))
    ensures Airports(routes + [r]) == Airports(routes) + {r.0, r.1}
  {
    assert forall q :: q in routes + [r] <==> q in routes || q == r;
  }

  lemma {:induction false} VisitNames<T>(p: Plan<T>, s: T)
    ensures Elements(Visit(p, s).names) == Elements(p.names) + {s}
    ensures NoRepeats(p.names) ==> NoRepeats(Visit(p, s).names)
  {
    if s !in p.names {
      assert forall x :: x in p.names + [s] <==> x in p.names || x == s;
      if NoRepeats(p.names) {
        NoRepeatsSnoc(p.names, s);
      }
    }
  }

  /** The airports get one vertex each: the labelled names are exactly the
      route ends, without repeats. */
  lemma {:induction false} RoutePlanNames<T>(routes: seq<(T, T)>, n0: nat)
    ensures NoRepeats(RoutePlan(routes, n0).names)
    ensures Elements(RoutePlan(routes, n0).names) == Airports(routes)
  {
    if routes != [] {
      var k := |routes| - 1;
      var p0 := RoutePlan(routes[..k], n0);
      RoutePlanNames(routes[..k], n0);
      VisitNames(p0, routes[k].0);
      VisitNames(Visit(p0, routes[k].0), routes[k].1);
      AirportsSnoc(routes[..k], routes[k]);
      LastSplit(routes);
    }
  }

  /** Looking a code up is not disturbed by codes added after it. */
  lemma {:induction false} IndexOfSnoc<T>(s: seq<T>, x: T, y: T)
    requires y in s
    ensures IndexOf(s + [x], y) == IndexOf(s, y)
  {
    if s[0] != y {
      assert (s + [x])[1..] == s[1..] + [x];
      IndexOfSnoc(s[1..], x, y);
    }
  }

  /** The codes of the routes leaving airport `a`, in file order. */
  function Destinations<T(==)>(routes: seq<(T, T)>, a: T): seq<T> {
    if routes == [] then []
    else
      var k := |routes| - 1;
      Destinations(routes[..k], a) + (if routes[k].0 == a then [routes[k].1] else [])
  }

  lemma {:induction false} DestinationsSnoc<T>(routes: seq<(T, T)>, r: (T, T), a: T)
    ensures Destinations(routes + [r], a) == Destinations(routes, a) + (if r.0 == a then [r.1] else [])
  {
    assert (routes + [r])[..|routes|] == routes;
  }

  /** An airport that no route names has no destinations. */
  lemma {:induction false} DestinationsNone<T>(routes: seq<(T, T)>, a: T)
    requires a !in Airports(routes)
    ensures Destinations(routes, a) == []
  {
    if routes != [] {
      var k := |routes| - 1;
      LastSplit(routes);
      AirportsSnoc(routes[..k], routes[k]);
      DestinationsNone(routes[..k], a);
    }
  }

  /** Every entry of `l` is a vertex from `lo` up to, not including, `hi`. */
  predicate Within(l: seq<int>, lo: int, hi: int) {
    forall k :: 0 <= k < |l| ==> lo <= l[k] < hi
  }

  /** The airport codes of the vertices in `l`, where vertex `n0 + i` is
      airport `names[i]`. */
  function Codes<T>(l: seq<int>, n0: nat, names: seq<T>): (r: seq<T>)
    requires Within(l, n0, n0 + |names|)
    ensures |r| == |l|
  {
    if l == [] then []
    else
      var m := |l| - 1;
      assert Within(l[..m], n0, n0 + |names|);
      Codes(l[..m], n0, names) + [names[l[m] - n0]]
  }

  lemma {:induction false} CodesSnoc<T>(l: seq<int>, w: int, n0: nat, names: seq<T>)
    requires Within(l, n0, n0 + |names|) && n0 <= w < n0 + |names|
    ensures Within(l + [w], n0, n0 + |names|)
    ensures Codes(l + [w], n0, names) == Codes(l, n0, names) + [names[w - n0]]
  {
    assert (l + [w])[..|l|] == l;
  }

  /** Adding an airport after the others changes no code. */
  lemma {:induction false} CodesGrow<T>(l: seq<int>, n0: nat, names: seq<T>, x: T)
    requires Within(l, n0, n0 + |names|)
    ensures Within(l, n0, n0 + |names| + 1)
    ensures Codes(l, n0, names + [x]) == Codes(l, n0, names)
  {
    if l != [] {
      var m := |l| - 1;
      assert Within(l[..m], n0, n0 + |names|);
      CodesGrow(l[..m], n0, names, x);
    }
  }

  /** The list of each airport vertex from `n0` on lists, as codes, the
      destinations of the routes leaving that airport, in file order. */
  ghost predicate Linked<T>(lists: Lists, n0: nat, names: seq<T>, routes: seq<(T, T)>)
    requires Indexed(lists, n0 + |names|)
  {
    forall v :: n0 <= v < n0 + |names| ==>
      Within(lists[v], n0, n0 + |names|) && Codes(lists[v], n0, names) == Destinations(routes, names[v - n0])
  }

  /** What loading `routes` on top of `s0` leaves: the old vertices as they
      were and one new vertex per airport of `names` (airport `names[i]` is
      vertex `n0 + i`), whose list holds the vertices of the destinations
      of its routes, in file order. */
  ghost predicate RoutesLoaded<T>(s0: ListGraph, s: ListGraph, names: seq<T>, routes: seq<(T, T)>) {
    var n0 := s0.numVertices;
    var n := n0 + |names|;
    && Indexed(s0.lists, n0)
    && s.numVertices == n
    && s.numEdges == s0.numEdges + |routes|
    && Indexed(s.lists, n)
    && (forall u :: 0 <= u < n0 ==> s.lists[u] == s0.lists[u])
    && Linked(s.lists, n0, names, routes)
  }

  /** A new airport gets an empty vertex; no route names it yet. */
  lemma {:induction false} VisitLinked<T>(lists: Lists, n0: nat, names: seq<T>, routes: seq<(T, T)>, x: T)
    requires Indexed(lists, n0 + |names|) && Linked(lists, n0, names, routes)
    requires Airports(routes) <= Elements(names) && x !in names
    ensures Indexed(lists[n0 + |names| := []], n0 + |names| + 1)
    ensures Linked(lists[n0 + |names| := []], n0, names + [x], routes)
  {
    var n := n0 + |names|;
    var lists' := lists[n := []];
    var names' := names + [x];
    forall v | n0 <= v <= n
      ensures Within(lists'[v], n0, n + 1) && Codes(lists'[v], n0, names') == Destinations(routes, names'[v - n0])
    {
      if v == n {
        DestinationsNone(routes, x);
      } else {
        CodesGrow(lists[v], n0, names, x);
        assert names'[v - n0] == names[v - n0];
      }
    }
  }

  lemma {:induction false} VisitLoaded<T>(s0: ListGraph, s: ListGraph, names: seq<T>, routes: seq<(T, T)>, x: T)
    requires RoutesLoaded(s0, s, names, routes)
    requires Airports(routes) <= Elements(names) && x !in names
    ensures RoutesLoaded(s0, ListStep(s, AddVertex), names + [x], routes)
  {
    var n := s0.numVertices + |names|;
    assert ListStep(s, AddVertex) == ListGraph(s.lists[n := []], n + 1, s.numEdges);
    VisitLinked(s.lists, s0.numVertices, names, routes, x);
  }

  /** A flight between two airports of `names`, `names[i]` and `names[j]`,
      appends the vertex of `names[j]` to the list of `names[i]`. */
  lemma {:induction false} EdgeLinked<T>(lists: Lists, n0: nat, names: seq<T>, routes: seq<(T, T)>, i: nat, j: nat)
    requires Indexed(lists, n0 + |names|) && Linked(lists, n0, names, routes)
    requires i < |names| && j < |names|
    requires forall k :: 0 <= k < |names| && names[k] == names[i] ==> k == i
    ensures Indexed(lists[n0 + i := lists[n0 + i] + [n0 + j]], n0 + |names|)
    ensures Linked(lists[n0 + i := lists[n0 + i] + [n0 + j]], n0, names, routes + [(names[i], names[j])])
  {
    var n := n0 + |names|;
    var lists' := lists[n0 + i := lists[n0 + i] + [n0 + j]];
    var r := (names[i], names[j]);
    forall v | n0 <= v < n
      ensures Within(lists'[v], n0, n) && Codes(lists'[v], n0, names) == Destinations(routes + [r], names[v - n0])
    {
      EdgeAt(lists[v], n0, names, routes, i, j, v);
    }
  }

  /** The list of vertex `v` after the flight from `names[i]` to
      `names[j]`: one more entry if `v` is the vertex of `names[i]`. */
  lemma {:induction false} EdgeAt<T>(l: seq<int>, n0: nat, names: seq<T>, routes: seq<(T, T)>, i: nat, j: nat, v: int)
    requires i < |names| && j < |names| && n0 <= v < n0 + |names|
    requires names[v - n0] == names[i] ==> v == n0 + i
    requires Within(l, n0, n0 + |names|) && Codes(l, n0, names) == Destinations(routes, names[v - n0])
    ensures var l' := if v == n0 + i then l + [n0 + j] else l;
            Within(l', n0, n0 + |names|) &&
            Codes(l', n0, names) == Destinations(routes + [(names[i], names[j])], names[v - n0])
  {
    if v == n0 + i {
      EdgeOwn(l, n0, names, routes, i, j);
    } else {
      DestinationsSnoc(routes, (names[i], names[j]), names[v - n0]);
    }
  }

  /** The list of `names[i]`, with the vertex of `names[j]` appended. */
  lemma {:induction false} EdgeOwn<T>(l: seq<int>, n0: nat, names: seq<T>, routes: seq<(T, T)>, i: nat, j: nat)
    requires i < |names| && j < |names|
    requires Within(l, n0, n0 + |names|) && Codes(l, n0, names) == Destinations(routes, names[i])
    ensures Within(l + [n0 + j], n0, n0 + |names|)
    ensures Codes(l + [n0 + j], n0, names) == Destinations(routes + [(names[i], names[j])], names[i])
  {
    CodesSnoc(l, n0 + j, n0, names);
    DestinationsSnoc(routes, (names[i], names[j]), names[i]);
  }

  /** `addEdge` between two vertices appends to the list of the first. */
  lemma {:induction false} ListStepEdge(s: ListGraph, v: int, w: int)
    requires v in s.lists && v < s.numVertices && w < s.numVertices
    ensures ListStep(s, AddEdge(v, w)) == ListGraph(s.lists[v := s.lists[v] + [w]], s.numVertices, s.numEdges + 1)
  {
  }

  /** The steps so far followed by one in-range edge. */
  lemma {:induction false} EdgeSteps(s0: ListGraph, ops: seq<Op>, v: int, w: int, ops': seq<Op>)
    requires var s := ListSteps(s0, ops); v in s.lists && v < s.numVertices && w < s.numVertices
    requires ops' == ops + [AddEdge(v, w)]
    ensures var s := ListSteps(s0, ops);
            ListSteps(s0, ops') == ListGraph(s.lists[v := s.lists[v] + [w]], s.numVertices, s.numEdges + 1)
  {
    ListStepsSnoc(s0, ops, AddEdge(v, w));
    ListStepEdge(ListSteps(s0, ops), v, w);
  }

  lemma {:induction false} EdgeLoaded<T>(s0: ListGraph, s: ListGraph, names: seq<T>, routes: seq<(T, T)>, i: nat, j: nat)
    requires RoutesLoaded(s0, s, names, routes) && i < |names| && j < |names|
    requires forall k :: 0 <= k < |names| && names[k] == names[i] ==> k == i
    ensures var n0 := s0.numVertices;
            var lists := s.lists[n0 + i := s.lists[n0 + i] + [n0 + j]];
            RoutesLoaded(s0, ListGraph(lists, s.numVertices, s.numEdges + 1), names, routes + [(names[i], names[j])])
  {
    EdgeLinked(s.lists, s0.numVertices, names, routes, i, j);
  }

  /** Visiting an airport keeps the loaded state: a known airport changes
      nothing, a new one gets an empty vertex. */
  lemma {:induction false} VisitStep<T>(s0: ListGraph, p: Plan<T>, routes: seq<(T, T)>, x: T)
    requires RoutesLoaded(s0, ListSteps(s0, p.ops), p.names, routes)
    requires NoRepeats(p.names) && Airports(routes) <= Elements(p.names)
    ensures var q := Visit(p, x);
            && RoutesLoaded(s0, ListSteps(s0, q.ops), q.names, routes)
            && NoRepeats(q.names) && Airports(routes) <= Elements(q.names)
  {
    VisitNames(p, x);
    if x !in p.names {
      VisitLoaded(s0, ListSteps(s0, p.ops), p.names, routes, x);
      ListStepsSnoc(s0, p.ops, AddVertex);
    }
  }

  /** Visiting both ends of a route keeps the loaded state. */
  lemma {:induction false} VisitBoth<T>(s0: ListGraph, p: Plan<T>, routes: seq<(T, T)>, a: T, b: T, p2: Plan<T>)
    requires RoutesLoaded(s0, ListSteps(s0, p.ops), p.names, routes)
    requires NoRepeats(p.names) && Airports(routes) <= Elements(p.names)
    requires p2 == Visit(Visit(p, a), b)
    ensures RoutesLoaded(s0, ListSteps(s0, p2.ops), p2.names, routes)
    ensures NoRepeats(p2.names) && a in p2.names && b in p2.names
  {
    var p1 := Visit(p, a);
    VisitStep(s0, p, routes, a);
    VisitStep(s0, p1, routes, b);
    VisitNames(p1, b);
  }

  /** The `addEdge` call of a route between two airports that have their
      vertices. */
  lemma {:induction false} EdgeStep<T>(s0: ListGraph, p: Plan<T>, routes: seq<(T, T)>, i: nat, j: nat, q: Plan<T>)
    requires RoutesLoaded(s0, ListSteps(s0, p.ops), p.names, routes)
    requires NoRepeats(p.names) && i < |p.names| && j < |p.names|
    requires q.ops == p.ops + [AddEdge(s0.numVertices + i, s0.numVertices + j)] && q.names == p.names
    ensures RoutesLoaded(s0, ListSteps(s0, q.ops), q.names, routes + [(p.names[i], p.names[j])])
  {
    EdgeSteps(s0, p.ops, s0.numVertices + i, s0.numVertices + j, q.ops);
    NoRepeatsOnlyAt(p.names, i);
    EdgeLoaded(s0, ListSteps(s0, p.ops), p.names, routes, i, j);
  }

  /** One more route keeps the loaded state. */
  lemma {:induction false} RouteStepLoaded<T>(s0: ListGraph, p: Plan<T>, routes: seq<(T, T)>, r: (T, T), q: Plan<T>, i: nat, j: nat, routes': seq<(T, T)>)
    requires RoutesLoaded(s0, ListSteps(s0, p.ops), p.names, routes)
    requires NoRepeats(p.names) && Airports(routes) <= Elements(p.names)
    requires var p2 := Visit(Visit(p, r.0), r.1);
             && i < |p2.names| && j < |p2.names| && p2.names[i] == r.0 && p2.names[j] == r.1
             && q.ops == p2.ops + [AddEdge(s0.numVertices + i, s0.numVertices + j)] && q.names == p2.names
    requires routes' == routes + [r]
    ensures RoutesLoaded(s0, ListSteps(s0, q.ops), q.names, routes')
  {
    var p2 := Visit(Visit(p, r.0), r.1);
    VisitBoth(s0, p, routes, r.0, r.1, p2);
    EdgeStep(s0, p2, routes, i, j, q);
  }

  /** `loadRoutes` on top of a valid graph: the old vertices are untouched,
      the airports get one new vertex each, and the list of each airport
      holds the vertex of the destination of each route leaving it, in
      file order. */
  lemma {:induction false} RoutesLoad<T>(s0: ListGraph, routes: seq<(T, T)>)
    requires Indexed(s0.lists, s0.numVertices)
    ensures var p := RoutePlan(routes, s0.numVertices);
            RoutesLoaded(s0, ListSteps(s0, p.ops), p.names, routes)
  {
    if routes != [] {
      RoutesLoad(s0, routes[..|routes| - 1]);
      LastRouteLoaded(s0, routes);
    }
  }

  /** The last route on top of the others. */
  lemma {:induction false} LastRouteLoaded<T>(s0: ListGraph, routes: seq<(T, T)>)
    requires routes != []
    requires var p := RoutePlan(routes[..|routes| - 1], s0.numVertices);
             RoutesLoaded(s0, ListSteps(s0, p.ops), p.names, routes[..|routes| - 1])
    ensures var q := RoutePlan(routes, s0.numVertices);
            RoutesLoaded(s0, ListSteps(s0, q.ops), q.names, routes)
  {
    var k := |routes| - 1;
    var i, j := LastRouteEnds(routes, s0.numVertices);
    RouteStepLoaded(s0, RoutePlan(routes[..k], s0.numVertices), routes[..k], routes[k],
                    RoutePlan(routes, s0.numVertices), i, j, routes);
  }

  /** The plan of the routes before the last one, and the positions of the
      ends of the last one among its airports. */
  lemma {:induction false} LastRouteEnds<T>(routes: seq<(T, T)>, n0: nat) returns (i: nat, j: nat)
    requires routes != []
    ensures var k := |routes| - 1;
            var p := RoutePlan(routes[..k], n0);
            var p2 := Visit(Visit(p, routes[k].0), routes[k].1);
            var q := RoutePlan(routes, n0);
            && NoRepeats(p.names) && Airports(routes[..k]) <= Elements(p.names)
            && i < |p2.names| && j < |p2.names| && p2.names[i] == routes[k].0 && p2.names[j] == routes[k].1
            && q.ops == p2.ops + [AddEdge(n0 + i, n0 + j)] && q.names == p2.names
            && routes == routes[..k] + [routes[k]]
  {
    var k := |routes| - 1;
    RoutePlanNames(routes[..k], n0);
    LastSplit(routes);
    RoutePlanLast(routes, n0);
    i, j := RouteStepEnds(RoutePlan(routes[..k], n0), routes[k].0, routes[k].1, n0, RoutePlan(routes, n0));
  }

  /** `graph.getIndex(s) ?: graph.addVertex().also { graph.addLabel(it, s) }`
      while the labels are those of `names`. */
  method IndexFor(g: GraphAdjList, s: string, ghost p: Plan<string>, ghost n0: nat) returns (index: int)
    requires g.Valid() && NoRepeats(p.names)
    requires g.base.vertexLabels == Some(Labelling(p.names, n0)) && g.base.numVertices == n0 + |p.names|
    modifies g, g.base
    ensures var p' := Visit(p, s);
            && g.Valid()
            && g.base.vertexLabels == Some(Labelling(p'.names, n0)) && g.base.numVertices == n0 + |p'.names|
            && index == n0 + IndexOf(p'.names, s)
            && StateOf(g) == (if s in p.names then old(StateOf(g)) else ListStep(old(StateOf(g)), AddVertex))
  {
    LabelKnown(p.names, n0, s);
    var found := g.base.GetIndex(s);
    match found
    case Success(Some(i)) =>
      LabelFound(p.names, n0, s, i);
      index := i;
    case Success(None) =>
      LabelNew(p, n0, s);
      ghost var before := StateOf(g);
      index := g.AddVertex();
      ghost var after := StateOf(g);
      assert after == ListStep(before, AddVertex);
      g.base.AddLabel(index, s);
      assert StateOf(g) == after;
  }

  /** One line of the routes file: the source and destination vertices as
      `IndexFor` finds or makes them, then `addEdge` between them, which
      never throws because both are vertices. */
  method AddRoute(g: GraphAdjList, source: string, destination: string, ghost p: Plan<string>, ghost n0: nat, ghost s0: ListGraph)
    requires g.Valid() && NoRepeats(p.names)
    requires g.base.vertexLabels == Some(Labelling(p.names, n0)) && g.base.numVertices == n0 + |p.names|
    requires StateOf(g) == ListSteps(s0, p.ops)
    modifies g, g.base
    ensures var p' := RouteStep(p, source, destination, n0);
            && g.Valid()
            && g.base.vertexLabels == Some(Labelling(p'.names, n0)) && g.base.numVertices == n0 + |p'.names|
            && StateOf(g) == ListSteps(s0, p'.ops)
  {
    var sourceIndex := IndexFor(g, source, p, n0);
    ghost var p1 := Visit(p, source);
    VisitSteps(s0, p, source);
    VisitNames(p, source);
    var destinationIndex := IndexFor(g, destination, p1, n0);
    ghost var p2 := Visit(p1, destination);
    VisitSteps(s0, p1, destination);
    VisitIndex(p1, destination, source);
    ghost var before := StateOf(g);
    assert before == ListSteps(s0, p2.ops);
    assert sourceIndex == n0 + IndexOf(p2.names, source);
    RouteStepEdge(p, source, destination, n0, sourceIndex, destinationIndex);
    var o := Apply(g, AddEdge(sourceIndex, destinationIndex));
    ListStepsSnoc(s0, p2.ops, AddEdge(sourceIndex, destinationIndex));
  }

  /** `loadRoutes`: a fresh, empty label map, then every route in file
      order. */
  method LoadRoutes(routes: seq<(string, string)>, g: GraphAdjList)
    requires g.Valid()
    modifies g, g.base
    ensures var p := RoutePlan(routes, old(g.base.numVertices));
            && g.Valid()
            && g.base.vertexLabels == Some(Labelling(p.names, old(g.base.numVertices)))
            && StateOf(g) == ListSteps(old(StateOf(g)), p.ops)
  {
    ghost var s0 := StateOf(g);
    ghost var n0 := g.base.numVertices;
    g.base.InitializeLabels();
    var i := 0;
    while i < |routes|
      invariant i <= |routes|
      invariant g.Valid()
      invariant var p := RoutePlan(routes[..i], n0);
                && g.base.vertexLabels == Some(Labelling(p.names, n0)) && g.base.numVertices == n0 + |p.names|
                && StateOf(g) == ListSteps(s0, p.ops)
    {
      ghost var p := RoutePlan(routes[..i], n0);
      RoutePlanNames(routes[..i], n0);
      AddRoute(g, routes[i].0, routes[i].1, p, n0, s0);
      RoutePlanSnoc(routes, i, n0);
      i := i + 1;
    }
    assert routes[..i] == routes;
  }
}
