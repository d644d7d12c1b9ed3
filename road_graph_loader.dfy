/** `loadRoadMap(filename, theGraph)` in util/GraphLoader.kt: the road map
    loaded into a teaching graph, here a `GraphAdjList`. The intersections
    are numbered from 0 in the order `findIntersections` lists them, one
    `addVertex` call each; then every line leaving an intersection is
    walked to the intersection where its edge ends, and one `addEdge` from
    the number of the start to the number of the end is made. The numbers
    start at 0 whatever the graph held before, so only on an empty graph
    do the edges land on the vertices added for the intersections. */
module RoadGraphLoading {
  import opened Wrappers
  import opened Geography
  import opened RoadLines
  import opened PointMaps
  import opened Intersections
  import opened EdgeWalk
  import opened RoadMapLoading
  import opened AdjacencyLists
  import opened Representations
  import opened GraphLoading

  /** No point occurs twice. */
  predicate Distinct(s: seq<Point>) {
    forall i, j :: 0 <= i < j < |s| ==> s[i] != s[j]
  }

  /** `reverseMap`: every point of `s` to its position. */
  function Numbering(s: seq<Point>): (r: map<Point, int>)
    ensures forall p :: p in r <==> p in s
    ensures forall p :: p in r ==> 0 <= r[p] < |s|
  {
    if s == [] then map[]
    else
      var m := |s| - 1;
      assert s == s[..m] + [s[m]];
      Numbering(s[..m])[s[m] := m]
  }

  /** Without repeats, the number of the `i`-th point is `i`. */
  lemma {:induction false} NumberingAt(s: seq<Point>, i: nat)
    requires Distinct(s) && i < |s|
    ensures Numbering(s)[s[i]] == i
  {
    var m := |s| - 1;
    if i < m {
      assert Distinct(s[..m]) by {
        forall a, b | 0 <= a < b < m
          ensures s[..m][a] != s[..m][b]
        {
          assert s[..m][a] == s[a] && s[..m][b] == s[b];
        }
      }
      NumberingAt(s[..m], i);
      assert s[..m][i] == s[i] && s[i] != s[m];
    }
  }

  /** `vertexMap`: every position of `s` to its point. */
  function Vertices(s: seq<Point>): (r: map<int, Point>)
    ensures forall v :: v in r <==> 0 <= v < |s|
    ensures forall v :: v in r ==> r[v] == s[v]
  {
    map v | 0 <= v < |s| :: s[v]
  }

  lemma PrefixMaps(s: seq<Point>, i: nat)
    requires i < |s|
    ensures Vertices(s[..i + 1]) == Vertices(s[..i])[i := s[i]]
    ensures Numbering(s[..i + 1]) == Numbering(s[..i])[s[i] := i]
  {
    assert s[..i + 1][..i] == s[..i];
  }

  /** The numbers of the intersections that the first `k` lines leaving the
      `v`-th intersection end at, in the order of its outgoing list. */
  ghost function LineEnds(m: map<Point, InOut>, s: seq<Point>, v: nat, k: nat): (r: seq<int>)
    requires Walkable(m, Elements(s)) && v < |s| && s[v] in m && k <= |m[s[v]].outgoing|
    ensures |r| == k
    ensures forall j :: 0 <= j < k ==> 0 <= r[j] < |s|
  {
    if k == 0 then []
    else
      LineStart(m, Elements(s), s[v], k - 1);
      var info := m[s[v]].outgoing[k - 1];
      EdgeWalkEnds(m, Elements(s), info);
      LineEnds(m, s, v, k - 1) + [Numbering(s)[Last(EdgeWalk.EdgeWalk(m, Elements(s), info))]]
  }

  /** Entry `j` is the number of the intersection line `j` ends at. */
  lemma {:induction false} LineEndsAt(m: map<Point, InOut>, s: seq<Point>, v: nat, k: nat, j: nat)
    requires Walkable(m, Elements(s)) && v < |s| && s[v] in m && j < k <= |m[s[v]].outgoing|
    ensures WalkStart(m, Elements(s), m[s[v]].outgoing[j])
    ensures Last(EdgeWalk.EdgeWalk(m, Elements(s), m[s[v]].outgoing[j])) in Numbering(s)
    ensures LineEnds(m, s, v, k)[j] == Numbering(s)[Last(EdgeWalk.EdgeWalk(m, Elements(s), m[s[v]].outgoing[j]))]
  {
    LineStart(m, Elements(s), s[v], j);
    EdgeWalkEnds(m, Elements(s), m[s[v]].outgoing[j]);
    if j < k - 1 {
      LineEndsAt(m, s, v, k - 1, j);
    }
  }

  /** The ends of all lines leaving the `v`-th intersection; none when its
      point has no entry in the map (`pointMap[pt] ?: continue`). */
  ghost function Ends(m: map<Point, InOut>, s: seq<Point>, v: nat): (r: seq<int>)
    requires Walkable(m, Elements(s)) && v < |s|
    ensures forall j :: 0 <= j < |r| ==> 0 <= r[j] < |s|
  {
    if s[v] in m then LineEnds(m, s, v, |m[s[v]].outgoing|) else []
  }

  /** One `addEdge(v, w)` for every `w` of `ends`. */
  function EdgesTo(v: int, ends: seq<int>): (ops: seq<Op>)
    ensures |ops| == |ends|
  {
    seq(|ends|, j requires 0 <= j < |ends| => AddEdge(v, ends[j]))
  }

  lemma EdgesToSnoc(v: int, ends: seq<int>, w: int)
    ensures EdgesTo(v, ends + [w]) == EdgesTo(v, ends) + [AddEdge(v, w)]
  {
  }

  /** The indices of `order` all number a point of `s`. */
  predicate Numbers(order: seq<int>, s: seq<Point>) {
    forall i :: 0 <= i < |order| ==> 0 <= order[i] < |s|
  }

  /** The `addEdge` calls made while visiting the vertex numbers in
      `order`. */
  ghost function NodeOps(m: map<Point, InOut>, s: seq<Point>, order: seq<int>): seq<Op>
    requires Walkable(m, Elements(s)) && Numbers(order, s)
  {
    if order == [] then []
    else
      var k := |order| - 1;
      assert Numbers(order[..k], s);
      NodeOps(m, s, order[..k]) + EdgesTo(order[k], Ends(m, s, order[k]))
  }

  lemma NodeOpsSnoc(m: map<Point, InOut>, s: seq<Point>, order: seq<int>, v: nat)
    requires Walkable(m, Elements(s)) && Numbers(order, s) && v < |s|
    ensures Numbers(order + [v], s)
    ensures NodeOps(m, s, order + [v]) == NodeOps(m, s, order) + EdgesTo(v, Ends(m, s, v))
  {
    assert (order + [v])[..|order|] == order;
  }

  /** `addEdge(v, w)` calls within range append the ends to the list of
      `v` and count the edges. */
  lemma {:induction false} EdgesToRun(S: ListGraph, v: int, ends: seq<int>)
    requires v in S.lists && v < S.numVertices
    requires forall j :: 0 <= j < |ends| ==> ends[j] < S.numVertices
    ensures ListSteps(S, EdgesTo(v, ends)) ==
              ListGraph(S.lists[v := S.lists[v] + ends], S.numVertices, S.numEdges + |ends|)
  {
    if ends == [] {
      assert S.lists[v] + [] == S.lists[v];
      assert S.lists[v := S.lists[v] + []] == S.lists;
    } else {
      var k := |ends| - 1;
      EdgesToRun(S, v, ends[..k]);
      assert ends[..k] + [ends[k]] == ends;
      EdgesToSnoc(v, ends[..k], ends[k]);
      ListStepsSnoc(S, EdgesTo(v, ends[..k]), AddEdge(v, ends[k]));
      AppendAssoc(S.lists[v], ends[..k], [ends[k]]);
    }
  }

  /** Visiting vertices adds no vertex and no list. */
  lemma {:induction false} NodeOpsFrame(S: ListGraph, m: map<Point, InOut>, s: seq<Point>, order: seq<int>)
    requires Walkable(m, Elements(s)) && Numbers(order, s)
    requires |s| <= S.numVertices && forall v :: 0 <= v < |s| ==> v in S.lists
    ensures ListSteps(S, NodeOps(m, s, order)).numVertices == S.numVertices
    ensures ListSteps(S, NodeOps(m, s, order)).lists.Keys == S.lists.Keys
  {
    if order != [] {
      var k := |order| - 1;
      var v := order[k];
      assert Numbers(order[..k], s);
      NodeOpsFrame(S, m, s, order[..k]);
      ListStepsAppend(S, NodeOps(m, s, order[..k]), EdgesTo(v, Ends(m, s, v)));
      EdgesToRun(ListSteps(S, NodeOps(m, s, order[..k])), v, Ends(m, s, v));
    }
  }

  /** After visiting the vertex numbers in `order`, each visited vertex has
      its old list followed by the ends of its lines, in line order, and
      no other list changes; the order of the visit does not matter. */
  lemma {:induction false} NodeOpsList(S: ListGraph, m: map<Point, InOut>, s: seq<Point>, order: seq<int>, u: int)
    requires Walkable(m, Elements(s)) && Numbers(order, s) && NoRepeats(order)
    requires |s| <= S.numVertices && forall v :: 0 <= v < |s| ==> v in S.lists
    requires u in S.lists
    ensures u in ListSteps(S, NodeOps(m, s, order)).lists
    ensures ListSteps(S, NodeOps(m, s, order)).lists[u] == S.lists[u] + (if u in order then Ends(m, s, u) else [])
  {
    NodeOpsFrame(S, m, s, order);
    if order == [] {
      assert S.lists[u] + [] == S.lists[u];
    } else {
      var k := |order| - 1;
      var v, before := order[k], order[..k];
      assert Numbers(before, s);
      assert NoRepeats(before) && v !in before;
      NodeOpsFrame(S, m, s, before);
      NodeOpsList(S, m, s, before, u);
      var T := ListSteps(S, NodeOps(m, s, before));
      var E := Ends(m, s, v);
      assert NodeOps(m, s, order) == NodeOps(m, s, before) + EdgesTo(v, E);
      ListStepsAppend(S, NodeOps(m, s, before), EdgesTo(v, E));
      EdgesToRun(T, v, E);
      var R := ListSteps(S, NodeOps(m, s, order));
      assert u in order <==> u in before || u == v by {
        assert order == before + [v];
      }
      var Eu := if u in order then Ends(m, s, u) else [];
      VisitStep(S, T, R, v, E, u, Eu, u in before);
    }
  }

  /** The list of `u` after one more vertex `v` is visited, on values. */
  lemma VisitStep(S: ListGraph, T: ListGraph, R: ListGraph, v: int, E: seq<int>, u: int, Eu: seq<int>, wasVisited: bool)
    requires u in S.lists && u in T.lists && v in T.lists
    requires T.lists[u] == S.lists[u] + (if wasVisited then Eu else [])
    requires R == ListGraph(T.lists[v := T.lists[v] + E], T.numVertices, T.numEdges + |E|)
    requires u == v ==> !wasVisited && Eu == E
    ensures R.lists[u] == S.lists[u] + (if wasVisited || u == v then Eu else [])
  {
    if u == v {
      assert S.lists[u] + [] == S.lists[u];
    }
  }

  /** One intersection of the edge loop: `findEndOfEdge` for every line
      leaving the `v`-th intersection, then `addEdge(v, endNum)`. Every call
      is within range, so none throws. */
  method AddLineEdges(g: GraphAdjList, m: map<Point, InOut>, s: seq<Point>, reverseMap: map<Point, int>, v: nat)
    requires g.Valid() && Walkable(m, Elements(s)) && reverseMap == Numbering(s)
    requires v < |s| && s[v] in m && |s| <= g.base.numVertices
    modifies g, g.base
    ensures g.Valid() && g.base.numVertices == old(g.base.numVertices)
    ensures StateOf(g) == ListSteps(old(StateOf(g)), EdgesTo(v, Ends(m, s, v)))
  {
    var infoList := m[s[v]].outgoing;
    ghost var S := StateOf(g);
    for k := 0 to |infoList|
      invariant g.Valid() && g.base.numVertices == S.numVertices
      invariant StateOf(g) == ListSteps(S, EdgesTo(v, LineEnds(m, s, v, k)))
    {
      LineStart(m, Elements(s), s[v], k);
      assert reverseMap.Keys == Elements(s);
      var end := FindEndOfEdge(m, infoList[k], reverseMap);
      var endNum := reverseMap[end];
      assert LineEnds(m, s, v, k + 1) == LineEnds(m, s, v, k) + [endNum];
      EdgesToSnoc(v, LineEnds(m, s, v, k), endNum);
      ListStepsSnoc(S, EdgesTo(v, LineEnds(m, s, v, k)), AddEdge(v, endNum));
      var _ := Apply(g, AddEdge(v, endNum));
    }
  }

  /** The vertex loop: `addVertex` for every intersection, numbered from 0
      in `vertexMap` and `reverseMap`. */
  method AddNumberedVertices(g: GraphAdjList, intersections: seq<Point>)
    returns (vertexMap: map<int, Point>, reverseMap: map<Point, int>)
    requires g.Valid()
    modifies g, g.base
    ensures g.Valid() && g.base.numVertices == old(g.base.numVertices) + |intersections|
    ensures StateOf(g) == ListSteps(old(StateOf(g)), VertexOps(|intersections|))
    ensures vertexMap == Vertices(intersections) && reverseMap == Numbering(intersections)
  {
    vertexMap, reverseMap := map[], map[];
    ghost var S0 := StateOf(g);
    var index := 0;
    for i := 0 to |intersections|
      invariant g.Valid() && index == i
      invariant StateOf(g) == ListSteps(S0, VertexOps(i))
      invariant g.base.numVertices == S0.numVertices + i
      invariant vertexMap == Vertices(intersections[..i])
      invariant reverseMap == Numbering(intersections[..i])
    {
      var pt := intersections[i];
      ListStepsSnoc(S0, VertexOps(i), AddVertex);
      PrefixMaps(intersections, i);
      var _ := Apply(g, AddVertex);
      vertexMap := vertexMap[index := pt];
      reverseMap := reverseMap[pt := index];
      index := index + 1;
    }
    assert intersections[..|intersections|] == intersections;
  }

  /** One key of `vertexMap`: the edges of the lines leaving its point,
      none when the point has no entry in the map. */
  method VisitVertex(g: GraphAdjList, m: map<Point, InOut>, s: seq<Point>,
                     vertexMap: map<int, Point>, reverseMap: map<Point, int>, nodeNum: int)
    requires g.Valid() && Walkable(m, Elements(s)) && |s| <= g.base.numVertices
    requires vertexMap == Vertices(s) && reverseMap == Numbering(s) && nodeNum in vertexMap
    modifies g, g.base
    ensures 0 <= nodeNum < |s|
    ensures g.Valid() && g.base.numVertices == old(g.base.numVertices)
    ensures StateOf(g) == ListSteps(old(StateOf(g)), EdgesTo(nodeNum, Ends(m, s, nodeNum)))
  {
    var pt := vertexMap[nodeNum];
    if pt in m {
      AddLineEdges(g, m, s, reverseMap, nodeNum);
    } else {
      assert EdgesTo(nodeNum, Ends(m, s, nodeNum)) == [];
    }
  }

  /** The edge loop: the vertex numbers in the order the key set of
      `vertexMap` hands them out, each with the edges of its lines. */
  method AddNumberedEdges(g: GraphAdjList, m: map<Point, InOut>, s: seq<Point>,
                          vertexMap: map<int, Point>, reverseMap: map<Point, int>)
    returns (ghost order: seq<int>)
    requires g.Valid() && Walkable(m, Elements(s)) && |s| <= g.base.numVertices
    requires vertexMap == Vertices(s) && reverseMap == Numbering(s)
    modifies g, g.base
    ensures g.Valid() && g.base.numVertices == old(g.base.numVertices)
    ensures NoRepeats(order) && Numbers(order, s)
    ensures forall v :: 0 <= v < |s| ==> v in order
    ensures StateOf(g) == ListSteps(old(StateOf(g)), NodeOps(m, s, order))
  {
    ghost var S1 := StateOf(g);
    var remaining := vertexMap.Keys;
    order := [];
    while remaining != {}
      invariant g.Valid() && g.base.numVertices == S1.numVertices
      invariant remaining <= vertexMap.Keys
      invariant NoRepeats(order) && Numbers(order, s)
      invariant forall v :: 0 <= v < |s| ==> (v in remaining <==> v !in order)
      invariant StateOf(g) == ListSteps(S1, NodeOps(m, s, order))
      decreases |remaining|
    {
      var nodeNum :| nodeNum in remaining;
      NodeOpsSnoc(m, s, order, nodeNum);
      VisitVertex(g, m, s, vertexMap, reverseMap, nodeNum);
      ListStepsAppend(S1, NodeOps(m, s, order), EdgesTo(nodeNum, Ends(m, s, nodeNum)));
      NoRepeatsSnoc(order, nodeNum);
      order := order + [nodeNum];
      remaining := remaining - {nodeNum};
    }
  }

  /** `loadRoadMap(filename, theGraph)`. `vertices` is the list
      `findIntersections` returned and `order` the order in which the key
      set of `vertexMap` handed out the vertex numbers. The graph receives
      one `addVertex` per intersection, then the `addEdge` calls of the
      visit; none of them throws. */
  method LoadRoadMapGraph(lines: seq<RoadLineInfo>, g: GraphAdjList)
    returns (ghost vertices: seq<Point>, ghost order: seq<int>)
    requires g.Valid()
    modifies g, g.base
    ensures g.Valid()
    ensures Elements(vertices) == IntersectionsOf(MapOf(lines)) && Distinct(vertices)
    ensures NoRepeats(order) && Numbers(order, vertices)
    ensures forall v :: 0 <= v < |vertices| ==> v in order
    ensures g.base.numVertices == old(g.base.numVertices) + |vertices|
    ensures StateOf(g) == ListSteps(ListSteps(old(StateOf(g)), VertexOps(|vertices|)),
                                    NodeOps(MapOf(lines), vertices, order))
  {
    var pointMap := BuildPointMapOneWay(lines);
    var m := pointMap.entries;
    assert m == MapOf(lines);
    var intersections := FindIntersections(m);
    vertices := intersections;
    assert Elements(intersections) == IntersectionsOf(m);
    ghost var S0 := StateOf(g);
    assert S0 == old(StateOf(g));
    var vertexMap, reverseMap := AddNumberedVertices(g, intersections);
    order := AddNumberedEdges(g, m, intersections, vertexMap, reverseMap);
  }

  /** Loaded into an empty graph, vertex `v` is the `v`-th intersection and
      its list holds, in line order, the number of the intersection each
      line leaving it ends at; there is one vertex per intersection and one
      edge per line leaving an intersection. */
  lemma LoadedIntoEmpty(lines: seq<RoadLineInfo>, intersections: seq<Point>, order: seq<int>, v: int)
    requires Elements(intersections) == IntersectionsOf(MapOf(lines))
    requires NoRepeats(order) && Numbers(order, intersections)
    requires forall u :: 0 <= u < |intersections| ==> u in order
    ensures var R := ListSteps(ListSteps(ListGraph(map[], 0, 0), VertexOps(|intersections|)),
                               NodeOps(MapOf(lines), intersections, order));
      && R.numVertices == |intersections|
      && (v in R.lists <==> 0 <= v < |intersections|)
      && (0 <= v < |intersections| ==> R.lists[v] == Ends(MapOf(lines), intersections, v))
  {
    var S := ListSteps(ListGraph(map[], 0, 0), VertexOps(|intersections|));
    VertexOpsFromEmpty(|intersections|);
    NodeOpsFrame(S, MapOf(lines), intersections, order);
    if 0 <= v < |intersections| {
      NodeOpsList(S, MapOf(lines), intersections, order, v);
    }
  }

  /** `k` calls of `addVertex` on an empty graph give `k` vertices with
      empty lists. */
  lemma {:induction false} VertexOpsFromEmpty(k: nat)
    ensures var S := ListSteps(ListGraph(map[], 0, 0), VertexOps(k));
      && S.numVertices == k && S.numEdges == 0
      && (forall v :: v in S.lists <==> 0 <= v < k)
      && (forall v :: v in S.lists ==> S.lists[v] == [])
  {
    if k > 0 {
      VertexOpsFromEmpty(k - 1);
      VertexOpsCalls(k);
      assert VertexOps(k) == VertexOps(k)[..k - 1] + [AddVertex];
      assert VertexOps(k)[..k - 1] == VertexOps(k - 1) by {
        VertexOpsCalls(k - 1);
      }
    }
  }
}
