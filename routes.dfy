/** Paths through the routing graph: the adjacency a `MapGraph` holds, edge
    paths, their costs and reachability. These are the terms in which the
    searches of roadgraph/MapGraph.kt are specified. */
module Routes {
  import opened Geography
  import opened MapNodes

  /** For every vertex, the edges leaving it (the `edgeList` of its node). */
  type Graph = map<Point, seq<MapEdge>>

  /** The shape `addEdge` maintains: an edge is listed at its own start
      point, ends at a vertex and has a positive length. */
  ghost predicate WellFormed(G: Graph) {
    forall p, e :: p in G && e in G[p] ==> e.from == p && e.to in G && e.distance > 0.0
  }

  predicate IsEdge(G: Graph, e: MapEdge) {
    e.from in G && e in G[e.from]
  }

  predicate Linked(a: MapEdge, b: MapEdge) {
    a.to == b.from
  }

  /** `es` is a walk along edges of `G` from `s` to `t`; the empty walk
      goes from a point to itself. */
  ghost predicate IsEdgePath(G: Graph, es: seq<MapEdge>, s: Point, t: Point) {
    && (if es == [] then s == t else es[0].from == s && es[|es| - 1].to == t)
    && (forall i :: 0 <= i < |es| ==> IsEdge(G, es[i]))
    && (forall i, j {:trigger es[i], es[j]} | 0 <= i && j == i + 1 && j < |es| :: Linked(es[i], es[j]))
  }

  ghost predicate Reachable(G: Graph, s: Point, t: Point) {
    exists es :: IsEdgePath(G, es, s, t)
  }

  /** The total length of the edges of `es`. */
  ghost function Cost(es: seq<MapEdge>): real {
    if es == [] then 0.0 else Cost(es[..|es| - 1]) + es[|es| - 1].distance
  }

  /** The intersections a walk passes, starting with `s`: what the searches
      return as their route. */
  function Stops(s: Point, es: seq<MapEdge>): (r: seq<Point>)
    ensures |r| == |es| + 1 && r[0] == s
  {
    if es == [] then [s] else Stops(s, es[..|es| - 1]) + [es[|es| - 1].to]
  }

  /** `route` lists the stops of some walk from `s` to `t`. */
  ghost predicate IsRoute(G: Graph, route: seq<Point>, s: Point, t: Point) {
    exists es :: IsEdgePath(G, es, s, t) && Stops(s, es) == route
  }

  /** `es` is a walk from `s` to `t` no longer than any other. */
  ghost predicate IsShortest(G: Graph, es: seq<MapEdge>, s: Point, t: Point) {
    IsEdgePath(G, es, s, t) && forall es' :: IsEdgePath(G, es', s, t) ==> Cost(es) <= Cost(es')
  }

  /** `route` lists the stops of a shortest walk from `s` to `t`, which has
      length `d`. */
  ghost predicate IsShortestRoute(G: Graph, route: seq<Point>, s: Point, t: Point, d: real) {
    exists es :: IsShortest(G, es, s, t) && Stops(s, es) == route && Cost(es) == d
  }

  /** No edge leaves `S`. */
  ghost predicate Closed(G: Graph, S: set<Point>) {
    forall x, e :: x in S && x in G && e in G[x] ==> e.to in S
  }

  /** A new vertex without edges keeps the graph well formed and its edges edges. */
  lemma AddVertexKeeps(G: Graph, p: Point)
    requires WellFormed(G) && p !in G
    ensures WellFormed(G[p := []])
    ensures forall e :: IsEdge(G, e) ==> IsEdge(G[p := []], e)
  {
  }

  /** An edge from a vertex to a vertex with positive length keeps the
      graph well formed and the edges edges. */
  lemma AddEdgeKeeps(G: Graph, e: MapEdge)
    requires WellFormed(G) && e.from in G && e.to in G && e.distance > 0.0
    ensures WellFormed(G[e.from := G[e.from] + [e]])
    ensures IsEdge(G[e.from := G[e.from] + [e]], e)
    ensures forall d :: IsEdge(G, d) ==> IsEdge(G[e.from := G[e.from] + [e]], d)
  {
  }

  /** A route starts at `s`, ends at `t` and moves along an edge at every step. */
  lemma {:induction false} StopsOfPath(G: Graph, es: seq<MapEdge>, s: Point, t: Point)
    requires IsEdgePath(G, es, s, t)
    ensures Stops(s, es)[|es|] == t
    ensures forall i :: 0 <= i < |es| ==> Stops(s, es)[i] == es[i].from && Stops(s, es)[i + 1] == es[i].to
  {
    if es != [] {
      var m := |es| - 1;
      var init := es[..m];
      PathPrefix(G, es, s, t, m);
      StopsOfPath(G, init, s, es[m].from);
      var before := Stops(s, init);
      var all := Stops(s, es);
      assert all == before + [es[m].to];
      forall i | 0 <= i < |es|
        ensures all[i] == es[i].from && all[i + 1] == es[i].to
      {
        if i < m {
          assert init[i] == es[i];
          assert all[i] == before[i] && all[i + 1] == before[i + 1];
        } else {
          assert all[i] == before[m];
        }
      }
    }
  }

  /** Every proper prefix of a walk is a walk to the start of the next edge. */
  lemma PathPrefix(G: Graph, es: seq<MapEdge>, s: Point, t: Point, k: nat)
    requires IsEdgePath(G, es, s, t) && k < |es|
    ensures IsEdgePath(G, es[..k], s, es[k].from)
  {
    var pre := es[..k];
    forall i | 0 <= i < |pre|
      ensures IsEdge(G, pre[i])
    {
      assert pre[i] == es[i];
    }
    forall i, j | 0 <= i && j == i + 1 && j < |pre|
      ensures Linked(pre[i], pre[j])
    {
      assert pre[i] == es[i] && pre[j] == es[j];
    }
    if k > 0 {
      assert Linked(es[k - 1], es[k]);
    }
  }

  /** A walk followed by an edge from its end is a walk to that edge's end. */
  lemma PathSnoc(G: Graph, es: seq<MapEdge>, s: Point, x: Point, e: MapEdge)
    requires IsEdgePath(G, es, s, x) && IsEdge(G, e) && e.from == x
    ensures IsEdgePath(G, es + [e], s, e.to)
  {
    var es' := es + [e];
    forall i | 0 <= i < |es'|
      ensures IsEdge(G, es'[i])
    {
      if i < |es| {
        assert es'[i] == es[i];
      }
    }
    forall i, j | 0 <= i && j == i + 1 && j < |es'|
      ensures Linked(es'[i], es'[j])
    {
      if j < |es| {
        assert es'[i] == es[i] && es'[j] == es[j];
      }
    }
  }

  lemma StopsSnoc(s: Point, es: seq<MapEdge>, e: MapEdge)
    ensures Stops(s, es + [e]) == Stops(s, es) + [e.to]
    ensures Cost(es + [e]) == Cost(es) + e.distance
  {
    assert (es + [e])[..|es|] == es;
  }

  /** Walks along a well-formed graph have non-negative cost, and a prefix
      costs no more than the whole. */
  lemma {:induction false} CostPrefix(G: Graph, es: seq<MapEdge>, k: nat)
    requires WellFormed(G)
    requires forall i :: 0 <= i < |es| ==> IsEdge(G, es[i])
    requires k <= |es|
    ensures 0.0 <= Cost(es[..k]) <= Cost(es)
  {
    if k == |es| {
      assert es[..k] == es;
      if es != [] {
        CostPrefix(G, es, k - 1);
        assert es[..k - 1] == es[..|es| - 1];
        assert IsEdge(G, es[k - 1]);
      }
    } else {
      var m := |es| - 1;
      var init := es[..m];
      forall i | 0 <= i < |init|
        ensures IsEdge(G, init[i])
      {
        assert init[i] == es[i];
      }
      CostPrefix(G, init, k);
      assert init[..k] == es[..k];
      assert IsEdge(G, es[m]);
    }
  }

  /** The edge at position `k` of a walk adds its length to the prefix
      before it without passing the cost of the whole walk. */
  lemma CostThroughEdge(G: Graph, es: seq<MapEdge>, k: nat)
    requires WellFormed(G)
    requires forall i :: 0 <= i < |es| ==> IsEdge(G, es[i])
    requires k < |es|
    ensures Cost(es[..k]) + es[k].distance <= Cost(es)
  {
    CostPrefix(G, es, k + 1);
    assert es[..k + 1][..k] == es[..k];
  }

  /** A walk from inside `S` to outside it has an edge that leaves `S`,
      reached by a walk before it. */
  lemma FirstExit(G: Graph, es: seq<MapEdge>, s: Point, t: Point, S: set<Point>) returns (k: nat)
    requires IsEdgePath(G, es, s, t) && s in S && t !in S
    ensures k < |es| && es[k].from in S && es[k].to !in S
    ensures IsEdgePath(G, es[..k], s, es[k].from)
  {
    k := 0;
    while es[k].to in S
      invariant k < |es| && es[k].from in S
      decreases |es| - k
    {
      assert Linked(es[k], es[k + 1]);
      k := k + 1;
    }
    PathPrefix(G, es, s, t, k);
  }

  /** Nothing outside a closed set can be reached from inside it. */
  lemma ClosedUnreachable(G: Graph, S: set<Point>, s: Point, t: Point)
    requires Closed(G, S) && s in S && t !in S
    ensures !Reachable(G, s, t)
  {
    forall es | IsEdgePath(G, es, s, t)
      ensures false
    {
      var k := FirstExit(G, es, s, t, S);
    }
  }
}
