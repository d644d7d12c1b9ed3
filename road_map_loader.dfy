/** Loading a road map (`loadRoadMap` and `addEdgesAndSegments` in
    util/GraphLoader.kt). The file is given as its sequence of parsed
    lines. The intersections of the point map become vertices; every line
    leaving an intersection is walked to the intersection where its edge
    ends. Into a `MapGraph` the loader adds one `MapEdge` per such line and,
    when given a segment table, records the edge as a `RoadSegment` under
    both its ends. Loading into a teaching graph is module
    RoadGraphLoading. */
module RoadMapLoading {
  import opened Wrappers
  import opened Geography
  import opened RoadLines
  import opened PointMaps
  import opened Intersections
  import opened EdgeWalk
  import opened MapNodes
  import opened Routes
  import opened MapGraphs

  // ---------------------------------------------------------------------
  // The edges a point map yields

  /** The intersections of a point map: the vertices the loader adds. */
  ghost function IntersectionsOf(m: map<Point, InOut>): set<Point> {
    set p | p in m && IsIntersection(m[p])
  }

  /** A point map built by the loader, with `nodes` holding all its
      intersections: every line leaving a node can be walked. */
  ghost predicate Walkable(m: map<Point, InOut>, nodes: set<Point>) {
    Consistent(m) && Covers(m, nodes)
  }

  /** The segment the loader builds from the line `info`: from the start of
      the line to the node the walk ends at, through the pass-through
      points, with the name and type of the line and the length of the
      polyline. */
  ghost function SegmentFor(m: map<Point, InOut>, nodes: set<Point>, dist: Distance, info: RoadLineInfo): RoadSegment
    requires WalkStart(m, nodes, info)
  {
    var w := EdgeWalk.EdgeWalk(m, nodes, info);
    RoadSegment(info.point1, Last(w), w[..|w| - 1], info.roadName, info.roadType, PolylineLength(dist, [info.point1] + w))
  }

  /** The segment agrees with the walk: it starts where the line starts,
      its geometry and end are the walk, it ends at a node and passes
      through none, it carries the line's name and type, and its length is
      that of the whole polyline. */
  lemma SegmentForWalk(m: map<Point, InOut>, nodes: set<Point>, dist: Distance, info: RoadLineInfo)
    requires WalkStart(m, nodes, info)
    ensures var seg := SegmentFor(m, nodes, dist, info);
      && seg.point1 == info.point1
      && seg.geometryPoints + [seg.point2] == EdgeWalk.EdgeWalk(m, nodes, info)
      && seg.point2 in nodes
      && (forall k :: 0 <= k < |seg.geometryPoints| ==> seg.geometryPoints[k] !in nodes)
      && seg.roadName == info.roadName && seg.roadType == info.roadType
      && seg.length == PolylineLength(dist, seg.Forward())
  {
    EdgeWalkEnds(m, nodes, info);
    var w := EdgeWalk.EdgeWalk(m, nodes, info);
    assert w[..|w| - 1] + [w[|w| - 1]] == w;
    assert [info.point1] + w[..|w| - 1] + [w[|w| - 1]] == [info.point1] + w;
  }

  /** The walk along a line leaving a node starts at that node. */
  lemma LineStart(m: map<Point, InOut>, nodes: set<Point>, pt: Point, k: nat)
    requires Walkable(m, nodes) && pt in nodes && pt in m && k < |m[pt].outgoing|
    ensures WalkStart(m, nodes, m[pt].outgoing[k]) && m[pt].outgoing[k].point1 == pt
  {
    assert m[pt].outgoing[k] in m[pt].outgoing;
  }

  /** The segments of the first `k` lines leaving the node `pt`, in the
      order of its outgoing list. */
  ghost function SegmentsFrom(m: map<Point, InOut>, nodes: set<Point>, dist: Distance, pt: Point, k: nat): (r: seq<RoadSegment>)
    requires Walkable(m, nodes) && pt in nodes && pt in m && k <= |m[pt].outgoing|
    ensures |r| == k
  {
    if k == 0 then []
    else
      LineStart(m, nodes, pt, k - 1);
      SegmentsFrom(m, nodes, dist, pt, k - 1) + [SegmentFor(m, nodes, dist, m[pt].outgoing[k - 1])]
  }

  /** The segments of all lines leaving `pt`; none for a point that is not
      a key of the map (`pointMap[pt] ?: continue`). */
  ghost function OutSegments(m: map<Point, InOut>, nodes: set<Point>, dist: Distance, pt: Point): seq<RoadSegment>
    requires Walkable(m, nodes) && pt in nodes
  {
    if pt in m then SegmentsFrom(m, nodes, dist, pt, |m[pt].outgoing|) else []
  }

  /** One segment per line leaving `pt`: the `i`-th is built from the
      `i`-th line and starts at `pt`. */
  lemma {:induction false} SegmentsFromAt(m: map<Point, InOut>, nodes: set<Point>, dist: Distance, pt: Point, k: nat, i: nat)
    requires Walkable(m, nodes) && pt in nodes && pt in m && i < k <= |m[pt].outgoing|
    ensures WalkStart(m, nodes, m[pt].outgoing[i])
    ensures SegmentsFrom(m, nodes, dist, pt, k)[i] == SegmentFor(m, nodes, dist, m[pt].outgoing[i])
    ensures SegmentsFrom(m, nodes, dist, pt, k)[i].point1 == pt
  {
    LineStart(m, nodes, pt, i);
    if i < k - 1 {
      SegmentsFromAt(m, nodes, dist, pt, k - 1, i);
    }
  }

  /** The points of `order` all lie in `nodes`. */
  ghost predicate Within(order: seq<Point>, nodes: set<Point>) {
    forall i :: 0 <= i < |order| ==> order[i] in nodes
  }

  /** The segments built while visiting the nodes in `order`. */
  ghost function NodeSegments(m: map<Point, InOut>, nodes: set<Point>, dist: Distance, order: seq<Point>): seq<RoadSegment>
    requires Walkable(m, nodes) && Within(order, nodes)
  {
    if order == [] then []
    else
      var k := |order| - 1;
      assert Within(order[..k], nodes);
      NodeSegments(m, nodes, dist, order[..k]) + OutSegments(m, nodes, dist, order[k])
  }

  lemma NodeSegmentsSnoc(m: map<Point, InOut>, nodes: set<Point>, dist: Distance, order: seq<Point>, pt: Point)
    requires Walkable(m, nodes) && Within(order, nodes) && pt in nodes
    ensures Within(order + [pt], nodes)
    ensures NodeSegments(m, nodes, dist, order + [pt]) == NodeSegments(m, nodes, dist, order) + OutSegments(m, nodes, dist, pt)
  {
    assert (order + [pt])[..|order|] == order;
  }

  /** Every edge the loader would add for the lines of `nodes` is positive,
      so no `addEdge` call throws. */
  ghost predicate AllPositive(m: map<Point, InOut>, nodes: set<Point>, dist: Distance)
    requires Walkable(m, nodes)
  {
    forall p :: p in nodes ==> Positive(OutSegments(m, nodes, dist, p))
  }

  predicate Positive(segs: seq<RoadSegment>) {
    forall k :: 0 <= k < |segs| ==> segs[k].length > 0.0
  }

  lemma PositiveSnoc(segs: seq<RoadSegment>, seg: RoadSegment)
    requires Positive(segs) && seg.length > 0.0
    ensures Positive(segs + [seg])
  {
  }

  // ---------------------------------------------------------------------
  // Edges appended to the graph

  /** The `MapEdge` that `addEdge` builds for a segment. */
  function EdgeOf(seg: RoadSegment): MapEdge {
    MapEdge(seg.point1, seg.point2, seg.roadName, seg.roadType, seg.length)
  }

  function EdgesOf(segs: seq<RoadSegment>): seq<MapEdge> {
    seq(|segs|, k requires 0 <= k < |segs| => EdgeOf(segs[k]))
  }

  lemma EdgesOfAppend(a: seq<RoadSegment>, b: seq<RoadSegment>)
    ensures EdgesOf(a + b) == EdgesOf(a) + EdgesOf(b)
  {
  }

  /** `G` with every edge of `es`, in order, appended to the list of its
      start point (what successive `addEdge` calls do to the nodes). */
  function AppendEdges(G: Graph, es: seq<MapEdge>): (H: Graph)
    ensures H.Keys == G.Keys
  {
    if es == [] then G
    else
      var H := AppendEdges(G, es[..|es| - 1]);
      var e := es[|es| - 1];
      if e.from in H then H[e.from := H[e.from] + [e]] else H
  }

  lemma AppendOne(G: Graph, e: MapEdge)
    requires e.from in G
    ensures AppendEdges(G, [e]) == G[e.from := G[e.from] + [e]]
  {
    assert [e][..0] == [];
  }

  lemma {:induction false} AppendEdgesAppend(G: Graph, a: seq<MapEdge>, b: seq<MapEdge>)
    ensures AppendEdges(G, a + b) == AppendEdges(AppendEdges(G, a), b)
  {
    if b == [] {
      assert a + b == a;
    } else {
      var k := |b| - 1;
      assert (a + b)[..|a + b| - 1] == a + b[..k];
      AppendEdgesAppend(G, a, b[..k]);
    }
  }

  /** Edges that all start at `q` extend the list of `q` and no other. */
  lemma {:induction false} AppendEdgesFrom(G: Graph, es: seq<MapEdge>, q: Point, p: Point)
    requires q in G && p in G
    requires forall k :: 0 <= k < |es| ==> es[k].from == q
    ensures AppendEdges(G, es)[p] == G[p] + (if p == q then es else [])
  {
    if es != [] {
      var k := |es| - 1;
      AppendEdgesFrom(G, es[..k], q, p);
      if p == q {
        assert es[..k] + [es[k]] == es;
      }
    }
  }

  /** The adjacency after visiting every node: each visited node keeps its
      old edges and gains one edge per line it has, in list order; the
      order in which the nodes are visited does not matter. */
  lemma {:induction false} NodeEdges(G: Graph, m: map<Point, InOut>, nodes: set<Point>, dist: Distance, order: seq<Point>, p: Point)
    requires Walkable(m, nodes) && Within(order, nodes) && NoRepeats(order)
    requires nodes <= G.Keys && p in G
    ensures AppendEdges(G, EdgesOf(NodeSegments(m, nodes, dist, order)))[p] ==
              G[p] + (if p in order then EdgesOf(OutSegments(m, nodes, dist, p)) else [])
  {
    if order != [] {
      var k := |order| - 1;
      var q := order[k];
      assert Within(order[..k], nodes);
      assert NoRepeats(order[..k]) && q !in order[..k];
      NodeEdges(G, m, nodes, dist, order[..k], p);
      var before := EdgesOf(NodeSegments(m, nodes, dist, order[..k]));
      var out := OutSegments(m, nodes, dist, q);
      EdgesOfAppend(NodeSegments(m, nodes, dist, order[..k]), out);
      AppendEdgesAppend(G, before, EdgesOf(out));
      forall j | 0 <= j < |out|
        ensures EdgesOf(out)[j].from == q
      {
        SegmentsFromAt(m, nodes, dist, q, |m[q].outgoing|, j);
      }
      var H := AppendEdges(G, before);
      AppendEdgesFrom(H, EdgesOf(out), q, p);
      assert AppendEdges(G, EdgesOf(NodeSegments(m, nodes, dist, order))) == AppendEdges(H, EdgesOf(out));
      assert p in order <==> p in order[..k] || p == q by {
        assert order == order[..k] + [q];
      }
      if p == q {
        assert H[p] == G[p];
      } else {
        assert AppendEdges(H, EdgesOf(out))[p] == H[p];
      }
    }
  }

  /** The adjacency after `addVertex` for each point of `vs`: a new point
      gets an empty list, a point already there keeps its list. */
  function WithVertices(G: Graph, vs: set<Point>): (H: Graph)
    ensures H.Keys == G.Keys + vs
  {
    map p | p in G.Keys + vs :: if p in G then G[p] else []
  }

  // ---------------------------------------------------------------------
  // The segment table

  /** A Kotlin `HashSet<RoadSegment>` holds `seg` when some element
      `equals` it; `hashCode` agrees with `equals`
      (`Geography.HashCodeConsistent`), so hashing adds nothing to the
      test. */
  predicate HoldsSegment(s: seq<RoadSegment>, seg: RoadSegment) {
    exists k :: 0 <= k < |s| && s[k].Equals(seg)
  }

  /** No two elements of the set are `equals`. */
  predicate Unique(s: seq<RoadSegment>) {
    forall i, j :: 0 <= i < j < |s| ==> !s[i].Equals(s[j])
  }

  /** `HashSet.add`: the segment is stored unless an equal one is. */
  function AddSegment(s: seq<RoadSegment>, seg: RoadSegment): seq<RoadSegment> {
    if HoldsSegment(s, seg) then s else s + [seg]
  }

  /** After `add` the set holds the segment and everything it held, no
      element is new except the segment, and no two elements are equal. */
  lemma AddSegmentHolds(s: seq<RoadSegment>, seg: RoadSegment)
    ensures HoldsSegment(AddSegment(s, seg), seg)
    ensures forall x :: HoldsSegment(s, x) ==> HoldsSegment(AddSegment(s, seg), x)
    ensures forall k :: 0 <= k < |AddSegment(s, seg)| ==> AddSegment(s, seg)[k] in s || AddSegment(s, seg)[k] == seg
    ensures Unique(s) ==> Unique(AddSegment(s, seg))
  {
    var r := AddSegment(s, seg);
    if !HoldsSegment(s, seg) {
      assert r[|s|].Equals(seg);
      forall x | HoldsSegment(s, x)
        ensures HoldsSegment(r, x)
      {
        var k :| 0 <= k < |s| && s[k].Equals(x);
        assert r[k] == s[k];
      }
      if Unique(s) {
        forall i, j | 0 <= i < j < |r|
          ensures !r[i].Equals(r[j])
        {
          if j == |s| {
            assert r[i] == s[i] && !s[i].Equals(seg);
          }
        }
      }
    } else {
      var k :| 0 <= k < |s| && s[k].Equals(seg);
    }
  }

  /** The caller's `HashMap<GeographicPoint, MutableSet<RoadSegment>>`. */
  type SegmentTable = map<Point, seq<RoadSegment>>

  function SegmentsAt(t: SegmentTable, p: Point): seq<RoadSegment> {
    if p in t then t[p] else []
  }

  /** Adding `seg` to the set of `p`, creating an empty set first when `p`
      has none. */
  function Register(t: SegmentTable, p: Point, seg: RoadSegment): SegmentTable {
    t[p := AddSegment(SegmentsAt(t, p), seg)]
  }

  /** What the loader does with the segment of one edge: the set of its
      start and then the set of its end receive it. */
  function RegisterBoth(t: SegmentTable, seg: RoadSegment): SegmentTable {
    Register(Register(t, seg.point1, seg), seg.point2, seg)
  }

  function RegisterAll(t: SegmentTable, segs: seq<RoadSegment>): SegmentTable {
    if segs == [] then t else RegisterBoth(RegisterAll(t, segs[..|segs| - 1]), segs[|segs| - 1])
  }

  /** The table after the loader, or None when it was given none. */
  function RegisterIn(t: Option<SegmentTable>, segs: seq<RoadSegment>): Option<SegmentTable> {
    if t.Some? then Some(RegisterAll(t.value, segs)) else None
  }

  lemma RegisterOne(t: Option<SegmentTable>, seg: RoadSegment)
    ensures RegisterIn(t, [seg]) == if t.Some? then Some(RegisterBoth(t.value, seg)) else None
  {
    if t.Some? {
      assert [seg][..0] == [];
      assert RegisterAll(t.value, []) == t.value;
    }
  }

  lemma {:induction false} RegisterAllAppend(t: SegmentTable, a: seq<RoadSegment>, b: seq<RoadSegment>)
    ensures RegisterAll(t, a + b) == RegisterAll(RegisterAll(t, a), b)
  {
    if b == [] {
      assert a + b == a;
    } else {
      var k := |b| - 1;
      assert (a + b)[..|a + b| - 1] == a + b[..k];
      RegisterAllAppend(t, a, b[..k]);
    }
  }

  lemma RegisterInAppend(t: Option<SegmentTable>, a: seq<RoadSegment>, b: seq<RoadSegment>)
    ensures RegisterIn(t, a + b) == RegisterIn(RegisterIn(t, a), b)
  {
    if t.Some? {
      RegisterAllAppend(t.value, a, b);
    }
  }

  /** Registering keeps what the sets held and adds the segment at the
      point it is registered under. */
  lemma RegisterKeeps(t: SegmentTable, p: Point, seg: RoadSegment, q: Point, x: RoadSegment)
    ensures HoldsSegment(SegmentsAt(t, q), x) ==> HoldsSegment(SegmentsAt(Register(t, p, seg), q), x)
    ensures HoldsSegment(SegmentsAt(Register(t, p, seg), p), seg)
    ensures Unique(SegmentsAt(t, p)) ==> Unique(SegmentsAt(Register(t, p, seg), p))
  {
    AddSegmentHolds(SegmentsAt(t, p), seg);
  }

  /** After the loader every segment it built is held under both of its
      ends, and whatever the table held before is still held. */
  lemma {:induction false} RegisterAllHolds(t: SegmentTable, segs: seq<RoadSegment>, q: Point, x: RoadSegment)
    ensures HoldsSegment(SegmentsAt(t, q), x) ==> HoldsSegment(SegmentsAt(RegisterAll(t, segs), q), x)
    ensures x in segs && (q == x.point1 || q == x.point2) ==> HoldsSegment(SegmentsAt(RegisterAll(t, segs), q), x)
  {
    if segs != [] {
      var k := |segs| - 1;
      var t' := RegisterAll(t, segs[..k]);
      var s := segs[k];
      RegisterAllHolds(t, segs[..k], q, x);
      assert segs == segs[..k] + [s];
      RegisterKeeps(t', s.point1, s, q, x);
      RegisterKeeps(Register(t', s.point1, s), s.point2, s, q, x);
      if x == s && q == s.point1 {
        RegisterKeeps(Register(t', s.point1, s), s.point2, s, q, s);
      }
    }
  }

  /** Each set of the table stays free of `equals` duplicates, as a
      `HashSet` is. */
  lemma {:induction false} RegisterAllUnique(t: SegmentTable, segs: seq<RoadSegment>, q: Point)
    requires forall p :: p in t ==> Unique(t[p])
    ensures Unique(SegmentsAt(RegisterAll(t, segs), q))
    ensures forall p :: p in RegisterAll(t, segs) ==> Unique(RegisterAll(t, segs)[p])
  {
    if segs != [] {
      var k := |segs| - 1;
      var t' := RegisterAll(t, segs[..k]);
      var s := segs[k];
      RegisterAllUnique(t, segs[..k], q);
      forall p | p in RegisterAll(t, segs)
        ensures Unique(RegisterAll(t, segs)[p])
      {
        RegisterAllUnique(t, segs[..k], p);
        RegisterKeeps(t', s.point1, s, p, s);
        RegisterKeeps(Register(t', s.point1, s), s.point2, s, p, s);
      }
    }
  }

  // ---------------------------------------------------------------------
  // addEdgesAndSegments and loadRoadMap into a MapGraph

  /** One pass of the inner loop of `addEdgesAndSegments`: walk the line,
      split off the end, measure the road, add the edge (which throws when
      the length is not positive) and record the segment under both ends. */
  method AddRoadEdge(g: MapGraph, m: map<Point, InOut>, nodes: set<Point>, dist: Distance, info: RoadLineInfo,
                     segments: Option<SegmentTable>)
    returns (o: Outcome, segments': Option<SegmentTable>)
    requires g.Valid() && WalkStart(m, nodes, info) && nodes <= g.graph.Keys
    modifies g`edgeList, g.graph.Values`edgeList
    ensures g.Valid()
    ensures o.Pass? <==> SegmentFor(m, nodes, dist, info).length > 0.0
    ensures o.Fail? ==> o.error == IllegalArgument
    ensures o.Pass? ==> g.edgeList == old(g.edgeList) + [EdgeOf(SegmentFor(m, nodes, dist, info))]
    ensures o.Pass? ==> g.Adjacency() == AppendEdges(old(g.Adjacency()), [EdgeOf(SegmentFor(m, nodes, dist, info))])
    ensures o.Pass? ==> segments' == RegisterIn(segments, [SegmentFor(m, nodes, dist, info)])
  {
    var pt := info.point1;
    var pointsOnEdge := FindPointsOnEdge(m, info, nodes);
    EdgeWalkEnds(m, nodes, info);
    var end := pointsOnEdge[|pointsOnEdge| - 1];
    pointsOnEdge := pointsOnEdge[..|pointsOnEdge| - 1];
    var length := GetRoadLength(dist, pt, end, pointsOnEdge);
    assert [pt] + pointsOnEdge + [end] == [pt] + EdgeWalk.EdgeWalk(m, nodes, info);
    assert length == SegmentFor(m, nodes, dist, info).length;
    ghost var G0 := g.Adjacency();
    assert G0 == old(g.Adjacency());
    o := g.AddEdge(pt, end, info.roadName, info.roadType, length);
    segments' := segments;
    if o.Fail? {
      return;
    }
    var seg := RoadSegment(pt, end, pointsOnEdge, info.roadName, info.roadType, length);
    assert seg == SegmentFor(m, nodes, dist, info);
    assert g.Adjacency() == G0[pt := G0[pt] + [EdgeOf(seg)]];
    AppendOne(G0, EdgeOf(seg));
    RegisterOne(segments, seg);
    if segments.Some? {
      segments' := Some(RegisterBoth(segments.value, seg));
    }
  }

  /** The inner loop of `addEdgesAndSegments`: every line leaving `pt`, in
      the order of its outgoing list; the first edge that throws ends the
      load. */
  method AddEdgesFrom(g: MapGraph, m: map<Point, InOut>, nodes: set<Point>, dist: Distance, pt: Point,
                      segments: Option<SegmentTable>)
    returns (o: Outcome, segments': Option<SegmentTable>)
    requires g.Valid() && Walkable(m, nodes) && pt in nodes && pt in m && nodes <= g.graph.Keys
    modifies g`edgeList, g.graph.Values`edgeList
    ensures g.Valid()
    ensures var segs := SegmentsFrom(m, nodes, dist, pt, |m[pt].outgoing|);
      && (o.Pass? <==> Positive(segs))
      && (o.Fail? ==> o.error == IllegalArgument)
      && (o.Pass? ==> g.edgeList == old(g.edgeList) + EdgesOf(segs))
      && (o.Pass? ==> g.Adjacency() == AppendEdges(old(g.Adjacency()), EdgesOf(segs)))
      && (o.Pass? ==> segments' == RegisterIn(segments, segs))
  {
    var outgoing := m[pt].outgoing;
    segments' := segments;
    o := Pass;
    ghost var E0, G0 := g.edgeList, g.Adjacency();
    for k := 0 to |outgoing|
      invariant g.Valid() && o == Pass
      invariant Positive(SegmentsFrom(m, nodes, dist, pt, k))
      invariant g.edgeList == E0 + EdgesOf(SegmentsFrom(m, nodes, dist, pt, k))
      invariant g.Adjacency() == AppendEdges(G0, EdgesOf(SegmentsFrom(m, nodes, dist, pt, k)))
      invariant segments' == RegisterIn(segments, SegmentsFrom(m, nodes, dist, pt, k))
    {
      LineStart(m, nodes, pt, k);
      ghost var E1, G1, t1 := g.edgeList, g.Adjacency(), segments';
      o, segments' := AddRoadEdge(g, m, nodes, dist, outgoing[k], segments');
      if o.Fail? {
        assert !Positive(SegmentsFrom(m, nodes, dist, pt, |outgoing|)) by {
          SegmentsFromAt(m, nodes, dist, pt, |outgoing|, k);
        }
        return;
      }
      FromStep(m, nodes, dist, pt, k, E0, E1, g.edgeList, G0, G1, g.Adjacency(), segments, t1, segments');
    }
  }

  /** One more line of `pt` done: the loop invariant of `AddEdgesFrom`
      carries over from `k` to `k + 1`. */
  lemma FromStep(m: map<Point, InOut>, nodes: set<Point>, dist: Distance, pt: Point, k: nat,
                 E0: seq<MapEdge>, E1: seq<MapEdge>, E2: seq<MapEdge>, G0: Graph, G1: Graph, G2: Graph,
                 t0: Option<SegmentTable>, t1: Option<SegmentTable>, t2: Option<SegmentTable>)
    requires Walkable(m, nodes) && pt in nodes && pt in m && k < |m[pt].outgoing|
    requires WalkStart(m, nodes, m[pt].outgoing[k])
    requires var before := SegmentsFrom(m, nodes, dist, pt, k);
      && Positive(before) && E1 == E0 + EdgesOf(before) && G1 == AppendEdges(G0, EdgesOf(before)) && t1 == RegisterIn(t0, before)
    requires var seg := SegmentFor(m, nodes, dist, m[pt].outgoing[k]);
      && seg.length > 0.0 && E2 == E1 + [EdgeOf(seg)] && G2 == AppendEdges(G1, [EdgeOf(seg)]) && t2 == RegisterIn(t1, [seg])
    ensures var segs := SegmentsFrom(m, nodes, dist, pt, k + 1);
      && Positive(segs) && E2 == E0 + EdgesOf(segs) && G2 == AppendEdges(G0, EdgesOf(segs)) && t2 == RegisterIn(t0, segs)
  {
    var before := SegmentsFrom(m, nodes, dist, pt, k);
    var seg := SegmentFor(m, nodes, dist, m[pt].outgoing[k]);
    assert SegmentsFrom(m, nodes, dist, pt, k + 1) == before + [seg];
    EdgesOfAppend(before, [seg]);
    assert EdgesOf([seg]) == [EdgeOf(seg)];
    AppendAssoc(E0, EdgesOf(before), [EdgeOf(seg)]);
    AppendEdgesAppend(G0, EdgesOf(before), [EdgeOf(seg)]);
    RegisterInAppend(t0, before, [seg]);
    PositiveSnoc(before, seg);
  }

  /** One more node done: the loop invariant of `AddEdgesAndSegments`
      carries over from `order` to `order + [pt]`. */
  lemma NodesStep(m: map<Point, InOut>, nodes: set<Point>, dist: Distance, order: seq<Point>, pt: Point,
                  E0: seq<MapEdge>, E1: seq<MapEdge>, E2: seq<MapEdge>, G0: Graph, G1: Graph, G2: Graph,
                  t0: Option<SegmentTable>, t1: Option<SegmentTable>, t2: Option<SegmentTable>)
    requires Walkable(m, nodes) && Within(order, nodes) && pt in nodes
    requires var before := NodeSegments(m, nodes, dist, order);
      E1 == E0 + EdgesOf(before) && G1 == AppendEdges(G0, EdgesOf(before)) && t1 == RegisterIn(t0, before)
    requires var out := OutSegments(m, nodes, dist, pt);
      if pt in m then E2 == E1 + EdgesOf(out) && G2 == AppendEdges(G1, EdgesOf(out)) && t2 == RegisterIn(t1, out)
      else E2 == E1 && G2 == G1 && t2 == t1
    ensures Within(order + [pt], nodes)
    ensures var segs := NodeSegments(m, nodes, dist, order + [pt]);
      E2 == E0 + EdgesOf(segs) && G2 == AppendEdges(G0, EdgesOf(segs)) && t2 == RegisterIn(t0, segs)
  {
    var before := NodeSegments(m, nodes, dist, order);
    var out := OutSegments(m, nodes, dist, pt);
    NodeSegmentsSnoc(m, nodes, dist, order, pt);
    if pt in m {
      EdgesOfAppend(before, out);
      AppendAssoc(E0, EdgesOf(before), EdgesOf(out));
      AppendEdgesAppend(G0, EdgesOf(before), EdgesOf(out));
      RegisterInAppend(t0, before, out);
    } else {
      assert before + out == before;
    }
  }

  /** `addEdgesAndSegments`: every node in the order the set hands them
      out (`order`, a ghost record of that order), every line leaving it;
      the first edge that throws ends the load. */
  method AddEdgesAndSegments(nodes: set<Point>, m: map<Point, InOut>, g: MapGraph, segments: Option<SegmentTable>,
                             dist: Distance)
    returns (o: Outcome, segments': Option<SegmentTable>, ghost order: seq<Point>)
    requires g.Valid() && Walkable(m, nodes) && nodes <= g.graph.Keys
    modifies g`edgeList, g.graph.Values`edgeList
    ensures g.Valid()
    ensures NoRepeats(order) && Within(order, nodes)
    ensures o.Pass? <==> AllPositive(m, nodes, dist)
    ensures o.Fail? ==> o.error == IllegalArgument
    ensures o.Pass? ==> Elements(order) == nodes
    ensures o.Pass? ==> g.edgeList == old(g.edgeList) + EdgesOf(NodeSegments(m, nodes, dist, order))
    ensures o.Pass? ==> g.Adjacency() == AppendEdges(old(g.Adjacency()), EdgesOf(NodeSegments(m, nodes, dist, order)))
    ensures o.Pass? ==> segments' == RegisterIn(segments, NodeSegments(m, nodes, dist, order))
  {
    order := [];
    segments' := segments;
    o := Pass;
    ghost var E0, G0 := g.edgeList, g.Adjacency();
    var remaining := nodes;
    while remaining != {}
      invariant g.Valid() && remaining <= nodes && o == Pass
      invariant NoRepeats(order) && Within(order, nodes) && Elements(order) == nodes - remaining
      invariant forall p :: p in Elements(order) ==> Positive(OutSegments(m, nodes, dist, p))
      invariant g.edgeList == E0 + EdgesOf(NodeSegments(m, nodes, dist, order))
      invariant g.Adjacency() == AppendEdges(G0, EdgesOf(NodeSegments(m, nodes, dist, order)))
      invariant segments' == RegisterIn(segments, NodeSegments(m, nodes, dist, order))
      decreases remaining
    {
      var pt :| pt in remaining;
      ghost var E1, G1, t1 := g.edgeList, g.Adjacency(), segments';
      if pt in m {
        o, segments' := AddEdgesFrom(g, m, nodes, dist, pt, segments');
        if o.Fail? {
          assert !Positive(OutSegments(m, nodes, dist, pt));
          return;
        }
      }
      NodesStep(m, nodes, dist, order, pt, E0, E1, g.edgeList, G0, G1, g.Adjacency(), segments, t1, segments');
      NoRepeatsSnoc(order, pt);
      ElementsSnoc(order, pt);
      order := order + [pt];
      remaining := remaining - {pt};
    }
  }

  /** The point map built from `lines`, with what every walk needs: it is
      consistent and its intersections cover it. */
  ghost function MapOf(lines: seq<RoadLineInfo>): (m: map<Point, InOut>)
    ensures m == PointMapOf(lines) && Walkable(m, IntersectionsOf(m))
  {
    PointMapOfConsistent(lines);
    PointMapOf(lines)
  }

  /** The segments of a road map loaded from `lines`, the nodes visited in
      `order`. */
  ghost function RoadSegments(lines: seq<RoadLineInfo>, dist: Distance, order: seq<Point>): seq<RoadSegment>
    requires Within(order, IntersectionsOf(MapOf(lines)))
  {
    NodeSegments(MapOf(lines), IntersectionsOf(MapOf(lines)), dist, order)
  }

  /** The set of intersections handed back: the one passed in plus
      `nodes`, or none when none was passed in. */
  function ToLoad(given: Option<set<Point>>, nodes: set<Point>): Option<set<Point>> {
    if given.Some? then Some(given.value + nodes) else None
  }

  /** `addVertex` for each point of `s` in turn: a point not yet a vertex
      gets an empty list, one already there changes nothing. */
  ghost function AddVertices(G: Graph, s: seq<Point>): Graph {
    if s == [] then G
    else
      var A := AddVertices(G, s[..|s| - 1]);
      if Last(s) in A then A else A[Last(s) := []]
  }

  /** Adding the points one by one gives every new one an empty list and
      leaves the old vertices alone. */
  lemma {:induction false} AddVerticesWith(G: Graph, s: seq<Point>)
    ensures AddVertices(G, s) == WithVertices(G, Elements(s))
  {
    if s == [] {
      assert WithVertices(G, {}) == G;
    } else {
      var m := |s| - 1;
      AddVerticesWith(G, s[..m]);
      assert s == s[..m] + [s[m]];
      ElementsSnoc(s[..m], s[m]);
    }
  }

  /** The `intersectionsToLoad?.add` of each point of `s` in turn. */
  function Collect(given: Option<set<Point>>, s: seq<Point>): Option<set<Point>> {
    if s == [] then given
    else
      var t := Collect(given, s[..|s| - 1]);
      if t.Some? then Some(t.value + {Last(s)}) else t
  }

  /** The collected set is the given one plus the points of `s`. */
  lemma {:induction false} CollectTo(given: Option<set<Point>>, s: seq<Point>)
    ensures Collect(given, s) == ToLoad(given, Elements(s))
  {
    if s == [] {
      assert Elements(s) == {};
      assert given.Some? ==> given.value + {} == given.value;
    } else {
      var m := |s| - 1;
      CollectTo(given, s[..m]);
      assert s == s[..m] + [s[m]];
      ElementsSnoc(s[..m], s[m]);
      if given.Some? {
        assert given.value + Elements(s[..m]) + {s[m]} == given.value + Elements(s);
      }
    }
  }

  /** The vertex loop of `loadRoadMap`: `addVertex` for every intersection,
      each also added to `intersectionsToLoad` when that set is given. */
  method AddIntersections(g: MapGraph, intersections: seq<Point>, intersectionsToLoad: Option<set<Point>>)
    returns (nodes: set<Point>, toLoad: Option<set<Point>>)
    requires g.Valid()
    modifies g`graph
    ensures g.Valid() && nodes == Elements(intersections)
    ensures g.graph.Keys == old(g.graph.Keys) + nodes
    ensures forall p :: p in g.graph ==> if p in old(g.graph) then g.graph[p] == old(g.graph[p]) else fresh(g.graph[p])
    ensures g.Adjacency() == WithVertices(old(g.Adjacency()), nodes)
    ensures toLoad == ToLoad(intersectionsToLoad, nodes)
  {
    nodes := {};
    toLoad := intersectionsToLoad;
    ghost var G0, N0 := g.Adjacency(), g.graph;
    for i := 0 to |intersections|
      invariant g.Valid()
      invariant forall p :: p in N0 ==> p in g.graph && g.graph[p] == N0[p]
      invariant forall p :: p in g.graph && p !in N0 ==> fresh(g.graph[p])
      invariant g.Adjacency() == AddVertices(G0, intersections[..i])
      invariant toLoad == Collect(intersectionsToLoad, intersections[..i])
      invariant nodes == Elements(intersections[..i])
    {
      var pt := intersections[i];
      assert intersections[..i + 1][..i] == intersections[..i];
      ghost var N := g.graph;
      var _ := g.AddVertex(Some(pt));
      assert forall p :: p in N ==> p in g.graph && g.graph[p] == N[p];
      if toLoad.Some? {
        toLoad := Some(toLoad.value + {pt});
      }
      ElementsPrefix(intersections, i);
      nodes := nodes + {pt};
    }
    assert intersections[..|intersections|] == intersections;
    AddVerticesWith(G0, intersections);
    CollectTo(intersectionsToLoad, intersections);
  }

  /** `loadRoadMap(filename, map, segments, intersectionsToLoad)`: the
      intersections of the point map become vertices, then
      `addEdgesAndSegments` adds the edges. The segment table and the set
      of intersections are passed in and handed back with what the loader
      added to them; `order` records the order in which the node set hands
      out its points. */
  method LoadRoadMap(lines: seq<RoadLineInfo>, g: MapGraph, segments: Option<SegmentTable>,
                     intersectionsToLoad: Option<set<Point>>, dist: Distance)
    returns (o: Outcome, segments': Option<SegmentTable>, toLoad: Option<set<Point>>, ghost order: seq<Point>)
    requires g.Valid()
    modifies g, g.graph.Values`edgeList
    ensures g.Valid()
    ensures g.graph.Keys == old(g.graph.Keys) + IntersectionsOf(MapOf(lines))
    ensures toLoad == ToLoad(intersectionsToLoad, IntersectionsOf(MapOf(lines)))
    ensures NoRepeats(order) && Within(order, IntersectionsOf(MapOf(lines)))
    ensures o.Pass? <==> AllPositive(MapOf(lines), IntersectionsOf(MapOf(lines)), dist)
    ensures o.Fail? ==> o.error == IllegalArgument
    ensures o.Pass? ==> Elements(order) == IntersectionsOf(MapOf(lines))
    ensures o.Pass? ==> g.edgeList == old(g.edgeList) + EdgesOf(RoadSegments(lines, dist, order))
    ensures o.Pass? ==> g.Adjacency() == AppendEdges(WithVertices(old(g.Adjacency()), IntersectionsOf(MapOf(lines))),
                                                     EdgesOf(RoadSegments(lines, dist, order)))
    ensures o.Pass? ==> segments' == RegisterIn(segments, RoadSegments(lines, dist, order))
  {
    var pointMap := BuildPointMapOneWay(lines);
    var m := pointMap.entries;
    assert m == MapOf(lines);
    var intersections := FindIntersections(m);
    ghost var G0, E0 := g.Adjacency(), g.edgeList;
    assert G0 == old(g.Adjacency()) && E0 == old(g.edgeList) && g.graph == old(g.graph);
    var nodes;
    nodes, toLoad := AddIntersections(g, intersections, intersectionsToLoad);
    assert nodes == IntersectionsOf(m);
    ghost var G1 := g.Adjacency();
    assert G1 == WithVertices(G0, nodes) && g.edgeList == E0;
    o, segments', order := AddEdgesAndSegments(nodes, m, g, segments, dist);
    assert o.Pass? ==> RoadSegments(lines, dist, order) == NodeSegments(m, nodes, dist, order);
  }

  /** `loadRoadMap(filename, map)`: no segment table and no set of
      intersections to fill. */
  method LoadRoadMapSimple(lines: seq<RoadLineInfo>, g: MapGraph, dist: Distance) returns (o: Outcome, ghost order: seq<Point>)
    requires g.Valid()
    modifies g, g.graph.Values`edgeList
    ensures g.Valid()
    ensures g.graph.Keys == old(g.graph.Keys) + IntersectionsOf(MapOf(lines))
    ensures NoRepeats(order) && Within(order, IntersectionsOf(MapOf(lines)))
    ensures o.Pass? <==> AllPositive(MapOf(lines), IntersectionsOf(MapOf(lines)), dist)
    ensures o.Fail? ==> o.error == IllegalArgument
    ensures o.Pass? ==> Elements(order) == IntersectionsOf(MapOf(lines))
    ensures o.Pass? ==> g.edgeList == old(g.edgeList) + EdgesOf(RoadSegments(lines, dist, order))
    ensures o.Pass? ==> g.Adjacency() == AppendEdges(WithVertices(old(g.Adjacency()), IntersectionsOf(MapOf(lines))),
                                                     EdgesOf(RoadSegments(lines, dist, order)))
  {
    var segments, toLoad;
    o, segments, toLoad, order := LoadRoadMap(lines, g, None, None, dist);
  }

  /** The adjacency of a graph that had `G0` after a load from `lines`
      that passes, the nodes visited in `order`. */
  ghost function Loaded(G0: Graph, lines: seq<RoadLineInfo>, dist: Distance, order: seq<Point>): Graph
    requires Within(order, IntersectionsOf(MapOf(lines)))
  {
    AppendEdges(WithVertices(G0, IntersectionsOf(MapOf(lines))), EdgesOf(RoadSegments(lines, dist, order)))
  }

  /** After a load the vertices are the old ones and the intersections; an
      old vertex that is not an intersection keeps its edges, and an
      intersection gains, after any it had, one edge per line leaving it,
      whatever order the node set handed out its points in. */
  lemma LoadedVertex(G0: Graph, lines: seq<RoadLineInfo>, dist: Distance, order: seq<Point>, p: Point)
    requires Within(order, IntersectionsOf(MapOf(lines))) && NoRepeats(order)
    requires Elements(order) == IntersectionsOf(MapOf(lines))
    ensures p in Loaded(G0, lines, dist, order) <==> p in G0 || p in IntersectionsOf(MapOf(lines))
    ensures p in Loaded(G0, lines, dist, order) ==>
              Loaded(G0, lines, dist, order)[p] ==
                (if p in G0 then G0[p] else []) +
                (if p in IntersectionsOf(MapOf(lines)) then EdgesOf(OutSegments(MapOf(lines), IntersectionsOf(MapOf(lines)), dist, p)) else [])
  {
    var m, I := MapOf(lines), IntersectionsOf(MapOf(lines));
    var G := WithVertices(G0, I);
    if p in G {
      NodeEdges(G, m, I, dist, order, p);
      assert p in order <==> p in I;
    }
  }

  /** The `k`-th edge an intersection gains comes from its `k`-th line: it
      starts there, ends at the next intersection along the line and
      carries the line's name and type. */
  lemma LoadedEdge(lines: seq<RoadLineInfo>, dist: Distance, p: Point, k: nat)
    requires p in IntersectionsOf(MapOf(lines))
    ensures p in MapOf(lines)
    ensures |EdgesOf(OutSegments(MapOf(lines), IntersectionsOf(MapOf(lines)), dist, p))| == |MapOf(lines)[p].outgoing|
    ensures k < |MapOf(lines)[p].outgoing| ==>
              var m, I := MapOf(lines), IntersectionsOf(MapOf(lines));
              var line := m[p].outgoing[k];
              var e := EdgesOf(OutSegments(m, I, dist, p))[k];
              && WalkStart(m, I, line)
              && e.from == p && e.to == Last(EdgeWalk.EdgeWalk(m, I, line)) && e.to in I
              && e.roadName == line.roadName && e.roadType == line.roadType
              && e.distance == SegmentFor(m, I, dist, line).length
  {
    var m, I := MapOf(lines), IntersectionsOf(MapOf(lines));
    if k < |m[p].outgoing| {
      SegmentsFromAt(m, I, dist, p, |m[p].outgoing|, k);
      SegmentForWalk(m, I, dist, m[p].outgoing[k]);
      EdgeWalkEnds(m, I, m[p].outgoing[k]);
    }
  }

  /** The segments of a visited node are among those of the whole visit. */
  lemma {:induction false} NodeSegmentsHold(m: map<Point, InOut>, nodes: set<Point>, dist: Distance, order: seq<Point>, i: nat, x: RoadSegment)
    requires Walkable(m, nodes) && Within(order, nodes) && i < |order|
    requires x in OutSegments(m, nodes, dist, order[i])
    ensures x in NodeSegments(m, nodes, dist, order)
  {
    var k := |order| - 1;
    assert Within(order[..k], nodes);
    var before, out := NodeSegments(m, nodes, dist, order[..k]), OutSegments(m, nodes, dist, order[k]);
    assert NodeSegments(m, nodes, dist, order) == before + out;
    if i < k {
      assert order[..k][i] == order[i];
      NodeSegmentsHold(m, nodes, dist, order[..k], i, x);
      assert x in before;
    } else {
      assert x in out;
    }
  }

  /** With a segment table given, the segment of every line leaving an
      intersection is held under both of its ends once the load passes,
      and what the table held before is still held. */
  lemma LoadedSegments(t: SegmentTable, lines: seq<RoadLineInfo>, dist: Distance, order: seq<Point>,
                       p: Point, k: nat, q: Point, x: RoadSegment)
    requires Within(order, IntersectionsOf(MapOf(lines)))
    requires Elements(order) == IntersectionsOf(MapOf(lines))
    requires p in IntersectionsOf(MapOf(lines)) && k < |MapOf(lines)[p].outgoing|
    ensures WalkStart(MapOf(lines), IntersectionsOf(MapOf(lines)), MapOf(lines)[p].outgoing[k])
    ensures var seg := SegmentFor(MapOf(lines), IntersectionsOf(MapOf(lines)), dist, MapOf(lines)[p].outgoing[k]);
      var t' := RegisterAll(t, RoadSegments(lines, dist, order));
      && HoldsSegment(SegmentsAt(t', p), seg)
      && HoldsSegment(SegmentsAt(t', seg.point2), seg)
      && (HoldsSegment(SegmentsAt(t, q), x) ==> HoldsSegment(SegmentsAt(t', q), x))
  {
    var m, I := MapOf(lines), IntersectionsOf(MapOf(lines));
    var segs := RoadSegments(lines, dist, order);
    SegmentsFromAt(m, I, dist, p, |m[p].outgoing|, k);
    var seg := SegmentFor(m, I, dist, m[p].outgoing[k]);
    assert p in order;
    var i := IndexOf(order, p);
    assert seg == OutSegments(m, I, dist, order[i])[k];
    NodeSegmentsHold(m, I, dist, order, i, seg);
    RegisterAllHolds(t, segs, p, seg);
    RegisterAllHolds(t, segs, seg.point2, seg);
    RegisterAllHolds(t, segs, q, x);
  }
}
