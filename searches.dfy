/** The state of the three searches of roadgraph/MapGraph.kt as values:
    the parent map and the route it spells (`buildPath`), one relaxation
    step of Dijkstra and A*, one discovery step of breadth-first search,
    and the invariants each loop keeps, with the lemmas that they are kept
    and what they give when the loop ends. */
module Searches {
  import opened Geography
  import opened MapNodes
  import opened Routes

  /* ---------------------------------------------------------------- */
  /* Parent maps                                                       */
  /* ---------------------------------------------------------------- */

  /** Following parents from any recorded point ends at `start`: every
      parent has a smaller ghost rank, and is `start` or has a parent
      itself. */
  ghost predicate Ranked(P: map<Point, Point>, rank: map<Point, nat>, start: Point) {
    && start in rank
    && forall x {:trigger P[x]} :: x in P && x != start ==>
         x in rank && P[x] in rank && rank[P[x]] < rank[x] && (P[x] == start || P[x] in P)
  }

  /** Each parent link was made along an edge of `G`, remembered in `PE`. */
  ghost predicate ParentEdges(G: Graph, P: map<Point, Point>, PE: map<Point, MapEdge>, start: Point) {
    forall x {:trigger P[x]} :: x in P && x != start ==>
      x in PE && PE[x].from == P[x] && PE[x].to == x && IsEdge(G, PE[x])
  }

  /** The points from `start` to `x` along parent links: the list
      `buildPath` returns. */
  ghost function Chain(P: map<Point, Point>, rank: map<Point, nat>, start: Point, x: Point): (r: seq<Point>)
    requires Ranked(P, rank, start) && (x == start || x in P)
    ensures |r| >= 1 && r[0] == start && r[|r| - 1] == x
    decreases rank[x]
  {
    if x == start then [start] else Chain(P, rank, start, P[x]) + [x]
  }

  /** The edges behind the parent links from `start` to `x`. */
  ghost function ChainEdges(P: map<Point, Point>, PE: map<Point, MapEdge>, rank: map<Point, nat>, start: Point, x: Point): seq<MapEdge>
    requires Ranked(P, rank, start) && (x == start || x in P)
    requires forall y :: y in P && y != start ==> y in PE
    decreases rank[x]
  {
    if x == start then [] else ChainEdges(P, PE, rank, start, P[x]) + [PE[x]]
  }

  /** The parent chain of `x` is a route of `G` from `start` to `x`. */
  lemma {:induction false} ChainIsRoute(G: Graph, P: map<Point, Point>, PE: map<Point, MapEdge>, rank: map<Point, nat>, start: Point, x: Point)
    requires Ranked(P, rank, start) && ParentEdges(G, P, PE, start) && (x == start || x in P)
    ensures IsEdgePath(G, ChainEdges(P, PE, rank, start, x), start, x)
    ensures Stops(start, ChainEdges(P, PE, rank, start, x)) == Chain(P, rank, start, x)
    ensures IsRoute(G, Chain(P, rank, start, x), start, x)
    decreases rank[x]
  {
    if x != start {
      var before := ChainEdges(P, PE, rank, start, P[x]);
      ChainIsRoute(G, P, PE, rank, start, P[x]);
      PathSnoc(G, before, start, P[x], PE[x]);
      StopsSnoc(start, before, PE[x]);
    }
  }

  /** Each recorded length is its parent's plus the parent edge. */
  ghost predicate CostsAdd(D: map<Point, Extended>, P: map<Point, Point>, PE: map<Point, MapEdge>, start: Point) {
    forall x {:trigger P[x]} :: x in P && x != start ==>
      && x in D && P[x] in D && x in PE && D[x].Finite? && D[P[x]].Finite?
      && D[x].value == D[P[x]].value + PE[x].distance
  }

  /** Where lengths add up along parent links, the chain to `x` costs the
      length recorded at `x`. */
  lemma {:induction false} ChainCost(D: map<Point, Extended>, P: map<Point, Point>, PE: map<Point, MapEdge>, rank: map<Point, nat>, start: Point, x: Point)
    requires Ranked(P, rank, start) && (x == start || x in P)
    requires forall y :: y in P && y != start ==> y in PE
    requires start in D && D[start] == Finite(0.0) && CostsAdd(D, P, PE, start)
    ensures x in D && D[x].Finite? && Cost(ChainEdges(P, PE, rank, start, x)) == D[x].value
    decreases rank[x]
  {
    if x != start {
      ChainCost(D, P, PE, rank, start, P[x]);
      StopsSnoc(start, ChainEdges(P, PE, rank, start, P[x]), PE[x]);
    }
  }

  /* ---------------------------------------------------------------- */
  /* Dijkstra and A*                                                   */
  /* ---------------------------------------------------------------- */

  /* The state of the loop of Dijkstra and A* is: the `length` of every
     node `D`, the priority queue `Q` (a multiset: a node can be queued more
     than once), the parent map `P`, and as ghost bookkeeping the edge
     behind every parent link `PE` and ranks that order the links, drawn
     from `counter`. `V` is the visited set and `h` the estimate A* adds
     (zero for Dijkstra). */

  /** The same state as one value, for the relaxation functions. */
  datatype SearchState = SearchState(
    D: map<Point, Extended>,
    Q: multiset<Point>,
    P: map<Point, Point>,
    PE: map<Point, MapEdge>,
    rank: map<Point, nat>,
    counter: nat)

  /** The lengths right after `initLengthInfinite` and `startNode.length = 0.0`. */
  function Unreached(keys: set<Point>, start: Point): (D: map<Point, Extended>)
    ensures D.Keys == keys
    ensures forall p :: p in keys ==> (D[p].Finite? <==> p == start)
  {
    map p | p in keys :: if p == start then Finite(0.0) else Infinity
  }

  /** What is recorded about `x`, which has a parent: the parent is visited,
      the link is an edge, and the length of `x` is the parent's plus the
      edge plus the estimate at `x`. */
  ghost predicate Parented(G: Graph, h: Point -> real, V: set<Point>, D: map<Point, Extended>,
                           P: map<Point, Point>, PE: map<Point, MapEdge>, x: Point)
    requires x in P
  {
    && x in PE && P[x] in V
    && PE[x].from == P[x] && PE[x].to == x && IsEdge(G, PE[x])
    && x in D && P[x] in D && D[x].Finite? && D[P[x]].Finite?
    && D[x].value == D[P[x]].value + PE[x].distance + h(x)
  }

  /** Lengths are kept for exactly the vertices; the start has length
      zero and no parent; a length is finite exactly at the start and at
      the nodes with a parent, and at every visited node. */
  ghost predicate Shape(G: Graph, start: Point, V: set<Point>, D: map<Point, Extended>, P: map<Point, Point>) {
    && D.Keys == G.Keys
    && start in G && V <= G.Keys
    && D[start] == Finite(0.0) && start !in P
    && (forall x :: x in G ==> (D[x].Finite? <==> x == start || x in P))
    && (forall x :: x in V ==> D[x].Finite?)
  }

  ghost predicate Links(G: Graph, h: Point -> real, V: set<Point>, D: map<Point, Extended>,
                        P: map<Point, Point>, PE: map<Point, MapEdge>) {
    forall x {:trigger P[x]} :: x in P ==> Parented(G, h, V, D, P, PE, x)
  }

  /** Parent links are ordered by ranks, all drawn before `counter`. */
  ghost predicate Ranks(P: map<Point, Point>, rank: map<Point, nat>, start: Point, counter: nat) {
    Ranked(P, rank, start) && forall x :: x in rank ==> rank[x] < counter
  }

  /** The queue holds vertices with finite length, among them every
      unvisited vertex that has one. */
  ghost predicate Queued(G: Graph, V: set<Point>, D: map<Point, Extended>, Q: multiset<Point>) {
    && (forall x :: x in Q ==> x in G && x in D && D[x].Finite?)
    && (forall x :: x in G && x in D && x !in V && D[x].Finite? ==> x in Q)
  }

  /** Before the first visit only the start is queued. */
  ghost predicate Started(start: Point, V: set<Point>, Q: multiset<Point>, P: map<Point, Point>) {
    start in V || (V == {} && Q == multiset{start} && P == map[])
  }

  /** The standing facts of the loop. */
  ghost predicate Tree(G: Graph, h: Point -> real, start: Point, V: set<Point>, D: map<Point, Extended>,
                       Q: multiset<Point>, P: map<Point, Point>, PE: map<Point, MapEdge>,
                       rank: map<Point, nat>, counter: nat) {
    && Shape(G, start, V, D, P)
    && Links(G, h, V, D, P, PE)
    && Ranks(P, rank, start, counter)
    && Queued(G, V, D, Q)
    && Started(start, V, Q, P)
  }

  ghost predicate TreeAt(G: Graph, h: Point -> real, start: Point, V: set<Point>, s: SearchState) {
    Tree(G, h, start, V, s.D, s.Q, s.P, s.PE, s.rank, s.counter)
  }

  /** The edge `e` out of `x` has been relaxed: its end is visited or its
      length is at most the length through `x`. */
  ghost predicate EdgeRelaxed(h: Point -> real, V: set<Point>, D: map<Point, Extended>, x: Point, e: MapEdge) {
    && x in D && D[x].Finite?
    && (e.to in V || (e.to in D && D[e.to].AtMost(Finite(D[x].value + e.distance + h(e.to)))))
  }

  /** Every edge out of a visited node, except those of the nodes in `skip`,
      has been relaxed. */
  ghost predicate Relaxed(G: Graph, h: Point -> real, V: set<Point>, D: map<Point, Extended>, skip: set<Point>) {
    forall x, e :: x in V && x !in skip && x in G && e in G[x] ==> EdgeRelaxed(h, V, D, x, e)
  }

  /** The invariant of the main loop of Dijkstra and A*. */
  ghost predicate Inv(G: Graph, h: Point -> real, start: Point, V: set<Point>, D: map<Point, Extended>,
                      Q: multiset<Point>, P: map<Point, Point>, PE: map<Point, MapEdge>,
                      rank: map<Point, nat>, counter: nat) {
    WellFormed(G) && Tree(G, h, start, V, D, Q, P, PE, rank, counter) && Relaxed(G, h, V, D, {})
  }

  /** Every visited node's length is at most the cost of every walk to it. */
  ghost predicate Settled(G: Graph, start: Point, V: set<Point>, D: map<Point, Extended>) {
    forall x, es :: x in V && IsEdgePath(G, es, start, x) ==> x in D && D[x].Finite? && D[x].value <= Cost(es)
  }

  /** `u` is a queued node of least length: what `priQueue.remove()` returns. */
  ghost predicate IsMin(D: map<Point, Extended>, Q: multiset<Point>, u: Point) {
    u in Q && u in D && forall y :: y in Q && y in D ==> D[u].AtMost(D[y])
  }

  /** The state between two passes of the main loop: the invariant, the
      visited nodes settled when there is no estimate (`zero`), and the goal
      not visited yet. */
  ghost predicate Running(G: Graph, h: Point -> real, start: Point, zero: bool, goal: Point, V: set<Point>,
                          D: map<Point, Extended>, Q: multiset<Point>, P: map<Point, Point>,
                          PE: map<Point, MapEdge>, rank: map<Point, nat>, counter: nat) {
    Inv(G, h, start, V, D, Q, P, PE, rank, counter) && (zero ==> Settled(G, start, V, D)) && goal !in V
  }

  /** The state right after the goal has been visited. */
  ghost predicate Reached(G: Graph, h: Point -> real, start: Point, zero: bool, goal: Point, V: set<Point>,
                          D: map<Point, Extended>, Q: multiset<Point>, P: map<Point, Point>,
                          PE: map<Point, MapEdge>, rank: map<Point, nat>, counter: nat) {
    WellFormed(G) && Tree(G, h, start, V, D, Q, P, PE, rank, counter) && (zero ==> Settled(G, start, V, D)) && goal in V
  }

  /** The first iteration starts from a state that satisfies the invariant. */
  lemma InitialInv(G: Graph, h: Point -> real, start: Point)
    requires WellFormed(G) && start in G
    ensures Inv(G, h, start, {}, Unreached(G.Keys, start), multiset{start}, map[], map[], map[start := 0], 1)
    ensures Settled(G, start, {}, Unreached(G.Keys, start))
  {
  }

  /** A non-empty queue has a least element. */
  lemma {:induction false} MinExists(D: map<Point, Extended>, Q: multiset<Point>) returns (u: Point)
    requires Q != multiset{} && forall y :: y in Q ==> y in D
    ensures IsMin(D, Q, u)
    decreases |Q|
  {
    var x :| x in Q;
    var rest := Q - multiset{x};
    assert Q == rest + multiset{x};
    if rest == multiset{} {
      u := x;
      assert Q == multiset{x};
      forall y | y in Q
        ensures y == x
      {
      }
    } else {
      var m := MinExists(D, rest);
      assert forall y :: y in Q ==> y in rest || y == x;
      ExtendedOrder(D[m], D[x], D[x]);
      if D[m].AtMost(D[x]) {
        u := m;
        forall y | y in Q && y in D
          ensures D[u].AtMost(D[y])
        {
          if y in rest {
            assert D[m].AtMost(D[y]);
          }
        }
      } else {
        u := x;
        forall y | y in Q && y in D
          ensures D[u].AtMost(D[y])
        {
          if y in rest {
            ExtendedOrder(D[x], D[m], D[y]);
          }
        }
      }
    }
  }

  /** Taking a node that was already visited out of the queue keeps the invariant. */
  lemma SkipKeeps(G: Graph, h: Point -> real, start: Point, V: set<Point>, D: map<Point, Extended>,
                  Q: multiset<Point>, P: map<Point, Point>, PE: map<Point, MapEdge>,
                  rank: map<Point, nat>, counter: nat, u: Point)
    requires Inv(G, h, start, V, D, Q, P, PE, rank, counter) && u in Q && u in V
    ensures Inv(G, h, start, V, D, Q - multiset{u}, P, PE, rank, counter)
  {
    forall x | x in G && x !in V && D[x].Finite?
      ensures x in Q - multiset{u}
    {
      assert x in Q && x != u;
    }
  }

  lemma VisitShape(G: Graph, start: Point, V: set<Point>, D: map<Point, Extended>, P: map<Point, Point>, u: Point)
    requires Shape(G, start, V, D, P) && u in G && D[u].Finite?
    ensures Shape(G, start, V + {u}, D, P)
  {
  }

  lemma VisitLinks(G: Graph, h: Point -> real, V: set<Point>, D: map<Point, Extended>,
                   P: map<Point, Point>, PE: map<Point, MapEdge>, u: Point)
    requires Links(G, h, V, D, P, PE)
    ensures Links(G, h, V + {u}, D, P, PE)
  {
    forall x | x in P
      ensures Parented(G, h, V + {u}, D, P, PE, x)
    {
      assert Parented(G, h, V, D, P, PE, x);
    }
  }

  lemma VisitQueued(G: Graph, V: set<Point>, D: map<Point, Extended>, Q: multiset<Point>, u: Point)
    requires Queued(G, V, D, Q)
    ensures Queued(G, V + {u}, D, Q - multiset{u})
  {
    forall x | x in G && x in D && x !in V + {u} && D[x].Finite?
      ensures x in Q - multiset{u}
    {
      assert x in Q && x != u;
    }
  }

  lemma VisitRelaxed(G: Graph, h: Point -> real, V: set<Point>, D: map<Point, Extended>, u: Point)
    requires Relaxed(G, h, V, D, {})
    ensures Relaxed(G, h, V + {u}, D, {u})
  {
    forall x, e | x in V + {u} && x !in {u} && x in G && e in G[x]
      ensures EdgeRelaxed(h, V + {u}, D, x, e)
    {
      assert EdgeRelaxed(h, V, D, x, e);
    }
  }

  /** Visiting a least queued node keeps the standing facts; only the edges
      of the node itself remain to be relaxed. */
  lemma VisitKeeps(G: Graph, h: Point -> real, start: Point, V: set<Point>, D: map<Point, Extended>,
                   Q: multiset<Point>, P: map<Point, Point>, PE: map<Point, MapEdge>,
                   rank: map<Point, nat>, counter: nat, u: Point)
    requires Inv(G, h, start, V, D, Q, P, PE, rank, counter) && IsMin(D, Q, u) && u !in V
    ensures Tree(G, h, start, V + {u}, D, Q - multiset{u}, P, PE, rank, counter)
    ensures Relaxed(G, h, V + {u}, D, {u})
  {
    VisitShape(G, start, V, D, P, u);
    VisitLinks(G, h, V, D, P, PE, u);
    VisitQueued(G, V, D, Q, u);
    VisitRelaxed(G, h, V, D, u);
  }

  /** Taking a visited node off the queue between two passes. */
  lemma SkipRunning(G: Graph, h: Point -> real, start: Point, zero: bool, goal: Point, V: set<Point>,
                    D: map<Point, Extended>, Q: multiset<Point>, P: map<Point, Point>,
                    PE: map<Point, MapEdge>, rank: map<Point, nat>, counter: nat, u: Point)
    requires Running(G, h, start, zero, goal, V, D, Q, P, PE, rank, counter) && u in Q && u in V
    ensures Running(G, h, start, zero, goal, V, D, Q - multiset{u}, P, PE, rank, counter)
  {
    SkipKeeps(G, h, start, V, D, Q, P, PE, rank, counter, u);
  }

  /** Visiting a least queued node that was not visited yet: the standing
      facts hold with it visited and taken off the queue, its own edges
      remain to be relaxed, and with no estimate (Dijkstra) it is settled. */
  lemma VisitStep(G: Graph, h: Point -> real, start: Point, zero: bool, goal: Point, V: set<Point>, D: map<Point, Extended>,
                  Q: multiset<Point>, P: map<Point, Point>, PE: map<Point, MapEdge>,
                  rank: map<Point, nat>, counter: nat, u: Point)
    requires Running(G, h, start, zero, goal, V, D, Q, P, PE, rank, counter) && IsMin(D, Q, u) && u !in V
    requires zero ==> forall p :: h(p) == 0.0
    ensures u == goal ==> Reached(G, h, start, zero, goal, V + {u}, D, Q - multiset{u}, P, PE, rank, counter)
    ensures WellFormed(G) && u in G && D[u].Finite?
    ensures Tree(G, h, start, V + {u}, D, Q - multiset{u}, P, PE, rank, counter)
    ensures Relaxed(G, h, V + {u}, D, {u})
    ensures zero ==> Settled(G, start, V + {u}, D)
  {
    VisitKeeps(G, h, start, V, D, Q, P, PE, rank, counter, u);
    if zero {
      VisitSettles(G, h, start, V, D, Q, P, PE, rank, counter, u);
    }
  }

  /** With no estimate (Dijkstra), a walk from the start to an unvisited
      node costs at least the length of a least queued node: the walk
      leaves the visited set along some edge, whose end is queued with a
      length no larger than that part of the walk. */
  lemma LeavingCost(G: Graph, h: Point -> real, start: Point, V: set<Point>, D: map<Point, Extended>,
                    Q: multiset<Point>, u: Point, x: Point, es: seq<MapEdge>)
    requires WellFormed(G) && Relaxed(G, h, V, D, {}) && Settled(G, start, V, D) && Queued(G, V, D, Q)
    requires forall p :: h(p) == 0.0
    requires IsMin(D, Q, u) && start in V && x !in V && IsEdgePath(G, es, start, x)
    ensures D[u].AtMost(Finite(Cost(es)))
  {
    var k := FirstExit(G, es, start, x, V);
    var a, b := es[k].from, es[k].to;
    assert IsEdge(G, es[k]);
    assert EdgeRelaxed(h, V, D, a, es[k]);
    assert D[a].value <= Cost(es[..k]);
    CostThroughEdge(G, es, k);
    ExtendedOrder(D[u], D[b], Finite(D[a].value + es[k].distance + h(b)));
    ExtendedOrder(D[u], Finite(D[a].value + es[k].distance + h(b)), Finite(Cost(es)));
  }

  /** With no estimate (Dijkstra), the node visited next has its final
      length: no walk to it is shorter. */
  lemma VisitSettles(G: Graph, h: Point -> real, start: Point, V: set<Point>, D: map<Point, Extended>,
                     Q: multiset<Point>, P: map<Point, Point>, PE: map<Point, MapEdge>,
                     rank: map<Point, nat>, counter: nat, u: Point)
    requires Inv(G, h, start, V, D, Q, P, PE, rank, counter) && Settled(G, start, V, D)
    requires IsMin(D, Q, u) && u !in V
    requires forall p :: h(p) == 0.0
    ensures Settled(G, start, V + {u}, D)
  {
    forall x, es: seq<MapEdge> | x in V + {u} && IsEdgePath(G, es, start, x)
      ensures x in D && D[x].Finite? && D[x].value <= Cost(es)
    {
      if x !in V {
        CostPrefix(G, es, 0);
        if start in V {
          LeavingCost(G, h, start, V, D, Q, u, x, es);
        }
      }
    }
  }

  /** One iteration of the loop over the edges of the visited node `u`:
      a neighbour that is unvisited and would get shorter through `u` gets
      the shorter length, `u` as its parent, and is queued again. */
  function RelaxOne(s: SearchState, V: set<Point>, u: Point, e: MapEdge, h: Point -> real): SearchState
    requires u in s.D && s.D[u].Finite?
  {
    var through := Finite(s.D[u].value + e.distance + h(e.to));
    if e.to in s.D && e.to !in V && through.Below(s.D[e.to]) then
      SearchState(s.D[e.to := through], s.Q + multiset{e.to}, s.P[e.to := u],
                  s.PE[e.to := e], s.rank[e.to := s.counter], s.counter + 1)
    else s
  }

  /** What one relaxation does. The neighbour `e.to` improves exactly when
      it is a known, unvisited node that the length through `u` makes
      shorter; then the state changes, `e.to` takes that length, which is
      below its old one, gets `u` as parent and one more queue entry, and
      the counter moves on. Otherwise nothing changes. Either way no other
      node's length, parent, rank or queue entries change. */
  lemma RelaxOneEffect(s: SearchState, V: set<Point>, u: Point, e: MapEdge, h: Point -> real)
    requires u in s.D && s.D[u].Finite?
    ensures var r := RelaxOne(s, V, u, e, h);
            var through := Finite(s.D[u].value + e.distance + h(e.to));
            var improves := e.to in s.D && e.to !in V && through.Below(s.D[e.to]);
            && r.D.Keys == s.D.Keys
            && (improves <==> r != s)
            && (improves ==> r.D[e.to] == through && r.D[e.to].Below(s.D[e.to]) && e.to in r.P && r.P[e.to] == u
                             && r.Q[e.to] == s.Q[e.to] + 1 && r.counter == s.counter + 1)
            && (forall y :: y != e.to && y in s.D ==> r.D[y] == s.D[y])
            && (forall y :: y != e.to ==> r.Q[y] == s.Q[y])
            && (forall y :: y != e.to ==> (y in r.P <==> y in s.P) && (y in s.P ==> r.P[y] == s.P[y]))
            && (forall y :: y != e.to ==> (y in r.rank <==> y in s.rank) && (y in s.rank ==> r.rank[y] == s.rank[y]))
  {
    var r := RelaxOne(s, V, u, e, h);
    var through := Finite(s.D[u].value + e.distance + h(e.to));
    if e.to in s.D && e.to !in V && through.Below(s.D[e.to]) {
      assert r.Q[e.to] == s.Q[e.to] + 1;
    }
  }

  /** The loop over the edges `es` of `u`, edge by edge. */
  function RelaxAll(s: SearchState, V: set<Point>, u: Point, es: seq<MapEdge>, h: Point -> real): (r: SearchState)
    requires u in V && u in s.D && s.D[u].Finite?
    ensures r.D.Keys == s.D.Keys
    ensures forall y :: y in V && y in s.D ==> r.D[y] == s.D[y]
  {
    if es == [] then s else RelaxOne(RelaxAll(s, V, u, es[..|es| - 1], h), V, u, es[|es| - 1], h)
  }

  /** One more edge is one more `RelaxOne`. */
  lemma RelaxAllStep(s: SearchState, V: set<Point>, u: Point, es: seq<MapEdge>, i: nat, h: Point -> real)
    requires u in V && u in s.D && s.D[u].Finite? && i < |es|
    ensures RelaxAll(s, V, u, es[..i + 1], h) == RelaxOne(RelaxAll(s, V, u, es[..i], h), V, u, es[i], h)
  {
    assert es[..i + 1][..i] == es[..i];
  }

  /** A relaxed edge stays relaxed while lengths only shrink and the
      length at its start is kept. */
  lemma EdgeRelaxedLower(h: Point -> real, V: set<Point>, D: map<Point, Extended>, D': map<Point, Extended>, x: Point, e: MapEdge)
    requires EdgeRelaxed(h, V, D, x, e)
    requires D'.Keys == D.Keys && D'[x] == D[x]
    requires e.to in D ==> D'[e.to].AtMost(D[e.to])
    ensures EdgeRelaxed(h, V, D', x, e)
  {
    if e.to !in V {
      ExtendedOrder(D'[e.to], D[e.to], Finite(D[x].value + e.distance + h(e.to)));
    }
  }

  lemma ImproveShape(G: Graph, start: Point, V: set<Point>, D: map<Point, Extended>, P: map<Point, Point>,
                     u: Point, t: Point, d: Extended)
    requires Shape(G, start, V, D, P) && start in V && t in G && t !in V && d.Finite?
    ensures Shape(G, start, V, D[t := d], P[t := u])
  {
  }

  lemma ImproveLinks(G: Graph, h: Point -> real, V: set<Point>, D: map<Point, Extended>,
                     P: map<Point, Point>, PE: map<Point, MapEdge>, u: Point, e: MapEdge)
    requires Links(G, h, V, D, P, PE)
    requires u in V && u in D && D[u].Finite? && e.from == u && IsEdge(G, e)
    requires e.to in D && e.to !in V
    ensures Links(G, h, V, D[e.to := Finite(D[u].value + e.distance + h(e.to))], P[e.to := u], PE[e.to := e])
  {
    var t, d := e.to, Finite(D[u].value + e.distance + h(e.to));
    var P' := P[t := u];
    forall x | x in P'
      ensures Parented(G, h, V, D[t := d], P', PE[t := e], x)
    {
      if x != t {
        assert Parented(G, h, V, D, P, PE, x);
      }
    }
  }

  lemma ImproveRanks(P: map<Point, Point>, rank: map<Point, nat>, start: Point, counter: nat, u: Point, t: Point)
    requires Ranks(P, rank, start, counter)
    requires u == start || u in P
    requires t != start && t != u
    requires forall x {:trigger P[x]} :: x in P ==> P[x] != t
    ensures Ranks(P[t := u], rank[t := counter], start, counter + 1)
  {
    var P', rank' := P[t := u], rank[t := counter];
    forall x | x in P' && x != start
      ensures x in rank' && P'[x] in rank' && rank'[P'[x]] < rank'[x]
      ensures P'[x] == start || P'[x] in P'
    {
      if x != t {
        assert P[x] != t;
      }
    }
  }

  lemma ImproveQueued(G: Graph, V: set<Point>, D: map<Point, Extended>, Q: multiset<Point>, t: Point, d: Extended)
    requires Queued(G, V, D, Q) && t in G && d.Finite?
    ensures Queued(G, V, D[t := d], Q + multiset{t})
  {
    forall x | x in G && x in D[t := d] && x !in V && D[t := d][x].Finite?
      ensures x in Q + multiset{t}
    {
      if x != t {
        assert x in Q;
      }
    }
  }

  /** Lowering the length of an unvisited node keeps the relaxed edges relaxed. */
  lemma ImproveRelaxed(G: Graph, h: Point -> real, V: set<Point>, D: map<Point, Extended>, skip: set<Point>, t: Point, d: Extended)
    requires Relaxed(G, h, V, D, skip) && t in D && t !in V && d.AtMost(D[t])
    ensures Relaxed(G, h, V, D[t := d], skip)
  {
    var D' := D[t := d];
    forall x, e | x in V && x !in skip && x in G && e in G[x]
      ensures EdgeRelaxed(h, V, D', x, e)
    {
      assert EdgeRelaxed(h, V, D, x, e);
      if e.to in D {
        ExtendedOrder(D'[e.to], D[e.to], D[e.to]);
      }
      EdgeRelaxedLower(h, V, D, D', x, e);
    }
  }

  lemma RelaxOneShape(G: Graph, h: Point -> real, start: Point, V: set<Point>, s: SearchState, u: Point, e: MapEdge)
    requires Shape(G, start, V, s.D, s.P) && start in V && u in V && e.to in G
    ensures Shape(G, start, V, RelaxOne(s, V, u, e, h).D, RelaxOne(s, V, u, e, h).P)
  {
    if e.to !in V && Finite(s.D[u].value + e.distance + h(e.to)).Below(s.D[e.to]) {
      ImproveShape(G, start, V, s.D, s.P, u, e.to, Finite(s.D[u].value + e.distance + h(e.to)));
    }
  }

  lemma RelaxOneLinks(G: Graph, h: Point -> real, V: set<Point>, s: SearchState, u: Point, e: MapEdge)
    requires Links(G, h, V, s.D, s.P, s.PE)
    requires u in V && u in s.D && s.D[u].Finite? && e.from == u && IsEdge(G, e)
    ensures Links(G, h, V, RelaxOne(s, V, u, e, h).D, RelaxOne(s, V, u, e, h).P, RelaxOne(s, V, u, e, h).PE)
  {
    if e.to in s.D && e.to !in V && Finite(s.D[u].value + e.distance + h(e.to)).Below(s.D[e.to]) {
      ImproveLinks(G, h, V, s.D, s.P, s.PE, u, e);
    }
  }

  lemma RelaxOneRanks(start: Point, V: set<Point>, s: SearchState, u: Point, e: MapEdge, h: Point -> real)
    requires Ranks(s.P, s.rank, start, s.counter)
    requires u in s.D && s.D[u].Finite? && (u == start || u in s.P) && start in V && u in V
    requires forall x {:trigger s.P[x]} :: x in s.P ==> s.P[x] in V
    ensures var r := RelaxOne(s, V, u, e, h); Ranks(r.P, r.rank, start, r.counter)
  {
    if e.to in s.D && e.to !in V && Finite(s.D[u].value + e.distance + h(e.to)).Below(s.D[e.to]) {
      ImproveRanks(s.P, s.rank, start, s.counter, u, e.to);
    }
  }

  lemma RelaxOneQueued(G: Graph, V: set<Point>, s: SearchState, u: Point, e: MapEdge, h: Point -> real)
    requires Queued(G, V, s.D, s.Q) && u in s.D && s.D[u].Finite? && e.to in G
    ensures Queued(G, V, RelaxOne(s, V, u, e, h).D, RelaxOne(s, V, u, e, h).Q)
  {
    if e.to in s.D && e.to !in V && Finite(s.D[u].value + e.distance + h(e.to)).Below(s.D[e.to]) {
      ImproveQueued(G, V, s.D, s.Q, e.to, Finite(s.D[u].value + e.distance + h(e.to)));
    }
  }

  /** One relaxation keeps the standing facts. */
  lemma RelaxOneKeeps(G: Graph, h: Point -> real, start: Point, V: set<Point>, s: SearchState, u: Point, e: MapEdge)
    requires WellFormed(G) && TreeAt(G, h, start, V, s)
    requires u in V && e in G[u]
    ensures TreeAt(G, h, start, V, RelaxOne(s, V, u, e, h))
  {
    assert start in V;
    assert e.from == u && IsEdge(G, e);
    RelaxOneShape(G, h, start, V, s, u, e);
    RelaxOneLinks(G, h, V, s, u, e);
    forall x | x in s.P
      ensures s.P[x] in V
    {
      assert Parented(G, h, V, s.D, s.P, s.PE, x);
    }
    RelaxOneRanks(start, V, s, u, e, h);
    RelaxOneQueued(G, V, s, u, e, h);
  }

  /** One relaxation only lowers lengths. */
  lemma RelaxOneLowers(s: SearchState, V: set<Point>, u: Point, e: MapEdge, h: Point -> real)
    requires u in s.D && s.D[u].Finite?
    ensures RelaxOne(s, V, u, e, h).D.Keys == s.D.Keys
    ensures forall y :: y in s.D ==> RelaxOne(s, V, u, e, h).D[y].AtMost(s.D[y])
  {
    var D := s.D;
    var D' := RelaxOne(s, V, u, e, h).D;
    forall y | y in D
      ensures D'[y].AtMost(D[y])
    {
      ExtendedOrder(D'[y], D[y], D[y]);
      if y == e.to && e.to !in V {
        ExtendedOrder(Finite(D[u].value + e.distance + h(e.to)), D[y], D[y]);
      }
    }
  }

  /** One relaxation relaxes its edge. */
  lemma RelaxOneEdge(s: SearchState, V: set<Point>, u: Point, e: MapEdge, h: Point -> real)
    requires u in V && u in s.D && s.D[u].Finite? && e.to in s.D
    ensures EdgeRelaxed(h, V, RelaxOne(s, V, u, e, h).D, u, e)
  {
    var d := Finite(s.D[u].value + e.distance + h(e.to));
    ExtendedOrder(d, d, d);
  }

  /** One relaxation keeps the edges relaxed before. */
  lemma RelaxOneRelaxed(G: Graph, h: Point -> real, V: set<Point>, s: SearchState, u: Point, e: MapEdge)
    requires Relaxed(G, h, V, s.D, {u}) && u in V && u in s.D && s.D[u].Finite? && e.to in s.D
    ensures Relaxed(G, h, V, RelaxOne(s, V, u, e, h).D, {u})
  {
    var D := s.D;
    var t, d := e.to, Finite(D[u].value + e.distance + h(e.to));
    if t !in V && d.Below(D[t]) {
      ExtendedOrder(d, D[t], d);
      ImproveRelaxed(G, h, V, D, {u}, t, d);
    }
  }

  /** The whole loop over the edges of `u` keeps the standing facts and
      the edges relaxed before. */
  lemma {:induction false} RelaxAllKeeps(G: Graph, h: Point -> real, start: Point, V: set<Point>, s: SearchState, u: Point, es: seq<MapEdge>)
    requires WellFormed(G) && TreeAt(G, h, start, V, s) && Relaxed(G, h, V, s.D, {u})
    requires u in V && forall e :: e in es ==> e in G[u]
    ensures TreeAt(G, h, start, V, RelaxAll(s, V, u, es, h))
    ensures Relaxed(G, h, V, RelaxAll(s, V, u, es, h).D, {u})
  {
    if es != [] {
      var m := |es| - 1;
      RelaxAllKeeps(G, h, start, V, s, u, es[..m]);
      var r0 := RelaxAll(s, V, u, es[..m], h);
      RelaxOneKeeps(G, h, start, V, r0, u, es[m]);
      RelaxOneRelaxed(G, h, V, r0, u, es[m]);
    }
  }

  /** Relaxed edges out of `u` stay relaxed while lengths only shrink and
      the length of `u` is kept. */
  lemma EdgesRelaxedLower(h: Point -> real, V: set<Point>, D: map<Point, Extended>, D': map<Point, Extended>, u: Point, es: seq<MapEdge>)
    requires forall e :: e in es ==> EdgeRelaxed(h, V, D, u, e)
    requires D'.Keys == D.Keys && u in D && D'[u] == D[u]
    requires forall y :: y in D ==> D'[y].AtMost(D[y])
    ensures forall e :: e in es ==> EdgeRelaxed(h, V, D', u, e)
  {
    forall e | e in es
      ensures EdgeRelaxed(h, V, D', u, e)
    {
      EdgeRelaxedLower(h, V, D, D', u, e);
    }
  }

  /** After the loop over `es`, every edge of `es` is relaxed. */
  lemma {:induction false} RelaxAllEdges(h: Point -> real, V: set<Point>, s: SearchState, u: Point, es: seq<MapEdge>)
    requires u in V && u in s.D && s.D[u].Finite? && forall e :: e in es ==> e.to in s.D
    ensures forall e :: e in es ==> EdgeRelaxed(h, V, RelaxAll(s, V, u, es, h).D, u, e)
  {
    if es != [] {
      var m := |es| - 1;
      var init := es[..m];
      RelaxAllEdges(h, V, s, u, init);
      var r0 := RelaxAll(s, V, u, init, h);
      RelaxOneEdge(r0, V, u, es[m], h);
      RelaxOneLowers(r0, V, u, es[m], h);
      EdgesRelaxedLower(h, V, r0.D, RelaxOne(r0, V, u, es[m], h).D, u, init);
      assert es == init + [es[m]];
    }
  }

  /** After visiting `u` and relaxing all its edges the invariant holds
      again, with `u` visited; lengths of visited nodes did not move, so
      settled nodes stay settled. */
  lemma RelaxEdgesKeeps(G: Graph, h: Point -> real, start: Point, V: set<Point>, s: SearchState, u: Point)
    requires WellFormed(G) && TreeAt(G, h, start, V, s) && Relaxed(G, h, V, s.D, {u})
    requires u in V && u in G
    ensures var r := RelaxAll(s, V, u, G[u], h);
              Inv(G, h, start, V, r.D, r.Q, r.P, r.PE, r.rank, r.counter)
    ensures Settled(G, start, V, s.D) ==> Settled(G, start, V, RelaxAll(s, V, u, G[u], h).D)
  {
    RelaxAllKeeps(G, h, start, V, s, u, G[u]);
    RelaxAllEdges(h, V, s, u, G[u]);
  }

  /** An empty queue leaves the visited set closed: no unvisited node can
      be reached. */
  lemma Exhausted(G: Graph, h: Point -> real, start: Point, V: set<Point>, D: map<Point, Extended>,
                  P: map<Point, Point>, PE: map<Point, MapEdge>, rank: map<Point, nat>, counter: nat, goal: Point)
    requires Inv(G, h, start, V, D, multiset{}, P, PE, rank, counter) && goal !in V
    ensures !Reachable(G, start, goal)
  {
    assert start in V;
    forall x, e | x in V && x in G && e in G[x]
      ensures e.to in V
    {
      assert EdgeRelaxed(h, V, D, x, e);
    }
    ClosedUnreachable(G, V, start, goal);
  }

  /** Parent links of the loop are edges of the graph. */
  lemma TreeParentEdges(G: Graph, h: Point -> real, start: Point, V: set<Point>, D: map<Point, Extended>,
                        Q: multiset<Point>, P: map<Point, Point>, PE: map<Point, MapEdge>,
                        rank: map<Point, nat>, counter: nat)
    requires Tree(G, h, start, V, D, Q, P, PE, rank, counter)
    ensures ParentEdges(G, P, PE, start)
  {
    forall x | x in P && x != start
      ensures x in PE && PE[x].from == P[x] && PE[x].to == x && IsEdge(G, PE[x])
    {
      assert Parented(G, h, V, D, P, PE, x);
    }
  }

  /** With no estimate (Dijkstra), the parent chain of a visited node is a
      shortest route to it, as long as its length. */
  lemma FoundShortest(G: Graph, h: Point -> real, start: Point, V: set<Point>, D: map<Point, Extended>,
                      Q: multiset<Point>, P: map<Point, Point>, PE: map<Point, MapEdge>,
                      rank: map<Point, nat>, counter: nat, goal: Point)
    requires WellFormed(G) && Tree(G, h, start, V, D, Q, P, PE, rank, counter) && Settled(G, start, V, D) && goal in V
    requires forall p :: h(p) == 0.0
    ensures goal in D && D[goal].Finite?
    ensures (goal == start || goal in P) && Ranked(P, rank, start)
    ensures goal == start || goal in P ==> IsShortestRoute(G, Chain(P, rank, start, goal), start, goal, D[goal].value)
  {
    TreeParentEdges(G, h, start, V, D, Q, P, PE, rank, counter);
    assert CostsAdd(D, P, PE, start) by {
      forall x | x in P && x != start
        ensures x in D && P[x] in D && x in PE && D[x].Finite? && D[P[x]].Finite?
        ensures D[x].value == D[P[x]].value + PE[x].distance
      {
        assert Parented(G, h, V, D, P, PE, x);
      }
    }
    var es := ChainEdges(P, PE, rank, start, goal);
    ChainIsRoute(G, P, PE, rank, start, goal);
    ChainCost(D, P, PE, rank, start, goal);
    assert IsShortest(G, es, start, goal);
  }

  /** The parent chain of a visited node is a route to it (A*). */
  lemma FoundRoute(G: Graph, h: Point -> real, start: Point, V: set<Point>, D: map<Point, Extended>,
                   Q: multiset<Point>, P: map<Point, Point>, PE: map<Point, MapEdge>,
                   rank: map<Point, nat>, counter: nat, goal: Point)
    requires Tree(G, h, start, V, D, Q, P, PE, rank, counter) && goal in V
    ensures (goal == start || goal in P) && Ranked(P, rank, start)
    ensures goal == start || goal in P ==> IsRoute(G, Chain(P, rank, start, goal), start, goal)
  {
    TreeParentEdges(G, h, start, V, D, Q, P, PE, rank, counter);
    ChainIsRoute(G, P, PE, rank, start, goal);
  }

  /** What the main loop of a search reports: the goal is `found` exactly
      when it can be reached; then its parent chain is a route to it, and
      with no estimate (`zero`, Dijkstra) a shortest one, as long as the
      goal's length. */
  ghost predicate Reports(G: Graph, start: Point, goal: Point, zero: bool, found: bool,
                          P: map<Point, Point>, rank: map<Point, nat>, D: map<Point, Extended>) {
    && (found <==> Reachable(G, start, goal))
    && (found ==>
          && (goal == start || goal in P) && Ranked(P, rank, start)
          && IsRoute(G, Chain(P, rank, start, goal), start, goal)
          && (zero ==> goal in D && D[goal].Finite? &&
                       IsShortestRoute(G, Chain(P, rank, start, goal), start, goal, D[goal].value)))
  }

  /** A search that visits the goal has found it: the goal has a parent
      chain, the chain is a route, so the goal is reachable, and with no
      estimate it is a shortest route as long as the goal's length. */
  lemma FoundGoal(G: Graph, h: Point -> real, start: Point, V: set<Point>, D: map<Point, Extended>,
                  Q: multiset<Point>, P: map<Point, Point>, PE: map<Point, MapEdge>,
                  rank: map<Point, nat>, counter: nat, goal: Point, zero: bool)
    requires Reached(G, h, start, zero, goal, V, D, Q, P, PE, rank, counter)
    requires zero ==> forall p :: h(p) == 0.0
    ensures Reports(G, start, goal, zero, true, P, rank, D)
  {
    FoundRoute(G, h, start, V, D, Q, P, PE, rank, counter, goal);
    var es :| IsEdgePath(G, es, start, goal) && Stops(start, es) == Chain(P, rank, start, goal);
    if zero {
      FoundShortest(G, h, start, V, D, Q, P, PE, rank, counter, goal);
    }
  }

  /** A search whose queue runs empty before the goal is visited reports
      that the goal cannot be reached, rightly. */
  lemma NotFound(G: Graph, h: Point -> real, start: Point, zero: bool, goal: Point, V: set<Point>, D: map<Point, Extended>,
                 P: map<Point, Point>, PE: map<Point, MapEdge>, rank: map<Point, nat>, counter: nat)
    requires Running(G, h, start, zero, goal, V, D, multiset{}, P, PE, rank, counter)
    ensures Reports(G, start, goal, zero, false, P, rank, D)
  {
    Exhausted(G, h, start, V, D, P, PE, rank, counter, goal);
  }

  /** Visiting adds an element the visited set lacked: the first part of
      the loop's termination measure goes down. */
  lemma GrowingSubset(K: set<Point>, V: set<Point>, u: Point)
    requires V <= K && u in K && u !in V
    ensures |K - (V + {u})| < |K - V|
  {
    assert K - V == (K - (V + {u})) + {u};
  }

  /* ---------------------------------------------------------------- */
  /* Breadth-first search                                              */
  /* ---------------------------------------------------------------- */

  /* The state of the `bfs` loop is: the discovered set `V` (`visited`,
     which does not contain the start at first), the queue `Q`, the parent
     map `P`, and as ghost bookkeeping the parent edges `PE` and ranks.
     `done` holds the nodes whose edges have been gone through, except
     those in `skip`, whose loop is under way. */

  /** The same state as one value, for the discovery functions. */
  datatype BfsState = BfsState(
    V: set<Point>,
    Q: multiset<Point>,
    P: map<Point, Point>,
    PE: map<Point, MapEdge>,
    rank: map<Point, nat>,
    counter: nat)

  /** Parents are discovered nodes that have been gone through; what has
      been gone through was discovered or is the start. */
  ghost predicate BfsShape(G: Graph, start: Point, done: set<Point>, V: set<Point>, P: map<Point, Point>) {
    && start in G && V <= G.Keys
    && P.Keys == V
    && (forall x {:trigger P[x]} :: x in P ==> P[x] in done)
    && done <= V + {start}
  }

  /** The queue holds discovered nodes (or the start), among them every one
      not gone through yet. */
  ghost predicate BfsQueued(start: Point, done: set<Point>, V: set<Point>, Q: multiset<Point>) {
    && (forall x :: x in Q ==> x in V || x == start)
    && (forall x :: (x in V || x == start) && x !in done ==> x in Q)
  }

  /** Every edge of a node gone through, except those of the nodes in
      `skip`, ends at a discovered node. */
  ghost predicate Expanded(G: Graph, done: set<Point>, V: set<Point>, skip: set<Point>) {
    forall x, e :: x in done && x !in skip && x in G && e in G[x] ==> e.to in V
  }

  /** The standing facts of the `bfs` loop. */
  ghost predicate BfsInv(G: Graph, start: Point, done: set<Point>, V: set<Point>, Q: multiset<Point>,
                         P: map<Point, Point>, PE: map<Point, MapEdge>, rank: map<Point, nat>,
                         counter: nat, skip: set<Point>) {
    && WellFormed(G)
    && BfsShape(G, start, done, V, P)
    && ParentEdges(G, P, PE, start)
    && Ranks(P, rank, start, counter)
    && BfsQueued(start, done, V, Q)
    && Expanded(G, done, V, skip)
  }

  ghost predicate BfsInvAt(G: Graph, start: Point, done: set<Point>, s: BfsState, skip: set<Point>) {
    BfsInv(G, start, done, s.V, s.Q, s.P, s.PE, s.rank, s.counter, skip)
  }

  lemma BfsInitialInv(G: Graph, start: Point)
    requires WellFormed(G) && start in G
    ensures BfsInv(G, start, {}, {}, multiset{start}, map[], map[], map[start := 0], 1, {})
  {
  }

  /** One iteration of the loop over the edges of `u`: an undiscovered
      vertex at the end of the edge is discovered, queued and given `u` as
      its parent. */
  function DiscoverOne(G: Graph, start: Point, s: BfsState, u: Point, e: MapEdge): BfsState {
    if e.to in G && e.to !in s.V then
      BfsState(s.V + {e.to}, s.Q + multiset{e.to}, s.P[e.to := u], s.PE[e.to := e],
               if e.to == start then s.rank else s.rank[e.to := s.counter], s.counter + 1)
    else s
  }

  /** The loop over the edges `es` of `u`, edge by edge. */
  function DiscoverAll(G: Graph, start: Point, s: BfsState, u: Point, es: seq<MapEdge>): (r: BfsState)
    ensures s.V <= r.V
    ensures |r.Q| + |s.V| == |s.Q| + |r.V|
  {
    if es == [] then s else DiscoverOne(G, start, DiscoverAll(G, start, s, u, es[..|es| - 1]), u, es[|es| - 1])
  }

  /** Taking `u` off the queue to go through its edges. */
  lemma BfsVisitKeeps(G: Graph, start: Point, done: set<Point>, V: set<Point>, Q: multiset<Point>,
                      P: map<Point, Point>, PE: map<Point, MapEdge>, rank: map<Point, nat>,
                      counter: nat, u: Point)
    requires BfsInv(G, start, done, V, Q, P, PE, rank, counter, {}) && u in Q
    ensures BfsInv(G, start, done + {u}, V, Q - multiset{u}, P, PE, rank, counter, {u})
  {
    forall x | (x in V || x == start) && x !in done + {u}
      ensures x in Q - multiset{u}
    {
      assert x in Q;
    }
  }

  lemma DiscoverShape(G: Graph, start: Point, done: set<Point>, V: set<Point>, P: map<Point, Point>, u: Point, t: Point)
    requires BfsShape(G, start, done, V, P) && u in done && t in G
    ensures BfsShape(G, start, done, V + {t}, P[t := u])
  {
    var P' := P[t := u];
    forall x | x in P'
      ensures P'[x] in done
    {
      if x != t {
        assert P[x] in done;
      }
    }
  }

  lemma DiscoverParentEdges(G: Graph, P: map<Point, Point>, PE: map<Point, MapEdge>, start: Point, u: Point, e: MapEdge)
    requires ParentEdges(G, P, PE, start) && e.from == u && IsEdge(G, e)
    ensures ParentEdges(G, P[e.to := u], PE[e.to := e], start)
  {
    var P' := P[e.to := u];
    forall x | x in P' && x != start
      ensures x in PE[e.to := e] && PE[e.to := e][x].from == P'[x] && PE[e.to := e][x].to == x
      ensures IsEdge(G, PE[e.to := e][x])
    {
      if x != e.to {
        assert x in P;
      }
    }
  }

  lemma DiscoverRanks(P: map<Point, Point>, rank: map<Point, nat>, start: Point, counter: nat, u: Point, t: Point)
    requires Ranks(P, rank, start, counter)
    requires u == start || u in P
    requires t != start ==> t != u && forall x {:trigger P[x]} :: x in P ==> P[x] != t
    ensures Ranks(P[t := u], if t == start then rank else rank[t := counter], start, counter + 1)
  {
    var P', rank' := P[t := u], if t == start then rank else rank[t := counter];
    forall x | x in P' && x != start
      ensures x in rank' && P'[x] in rank' && rank'[P'[x]] < rank'[x]
      ensures P'[x] == start || P'[x] in P'
    {
      if x != t {
        if t != start {
          assert P[x] != t;
        }
      }
    }
  }

  lemma DiscoverQueued(start: Point, done: set<Point>, V: set<Point>, Q: multiset<Point>, t: Point)
    requires BfsQueued(start, done, V, Q)
    ensures BfsQueued(start, done, V + {t}, Q + multiset{t})
  {
    forall x | (x in V + {t} || x == start) && x !in done
      ensures x in Q + multiset{t}
    {
      if x != t {
        assert x in Q;
      }
    }
  }

  /** Discovering the end of `e` keeps the standing facts. */
  lemma DiscoverKeeps(G: Graph, start: Point, done: set<Point>, V: set<Point>, Q: multiset<Point>,
                      P: map<Point, Point>, PE: map<Point, MapEdge>, rank: map<Point, nat>,
                      counter: nat, u: Point, e: MapEdge)
    requires BfsInv(G, start, done, V, Q, P, PE, rank, counter, {u}) && u in done && e in G[u]
    requires e.to in G && e.to !in V
    ensures BfsInv(G, start, done, V + {e.to}, Q + multiset{e.to}, P[e.to := u], PE[e.to := e],
                   if e.to == start then rank else rank[e.to := counter], counter + 1, {u})
  {
    var t := e.to;
    assert e.from == u && IsEdge(G, e);
    DiscoverShape(G, start, done, V, P, u, t);
    DiscoverParentEdges(G, P, PE, start, u, e);
    if t != start {
      forall x | x in P
        ensures P[x] != t
      {
        assert P[x] in done;
      }
    }
    DiscoverRanks(P, rank, start, counter, u, t);
    DiscoverQueued(start, done, V, Q, t);
  }

  lemma DiscoverOneKeeps(G: Graph, start: Point, done: set<Point>, s: BfsState, u: Point, e: MapEdge)
    requires BfsInvAt(G, start, done, s, {u}) && u in done && e in G[u]
    ensures BfsInvAt(G, start, done, DiscoverOne(G, start, s, u, e), {u})
  {
    if e.to in G && e.to !in s.V {
      DiscoverKeeps(G, start, done, s.V, s.Q, s.P, s.PE, s.rank, s.counter, u, e);
    }
  }

  lemma {:induction false} DiscoverAllKeeps(G: Graph, start: Point, done: set<Point>, s: BfsState, u: Point, es: seq<MapEdge>)
    requires BfsInvAt(G, start, done, s, {u}) && u in done && forall e :: e in es ==> e in G[u]
    ensures BfsInvAt(G, start, done, DiscoverAll(G, start, s, u, es), {u})
  {
    if es != [] {
      var m := |es| - 1;
      DiscoverAllKeeps(G, start, done, s, u, es[..m]);
      DiscoverOneKeeps(G, start, done, DiscoverAll(G, start, s, u, es[..m]), u, es[m]);
    }
  }

  /** After the loop over `es`, the end of every edge that is a vertex has
      been discovered. */
  lemma {:induction false} DiscoverAllEnds(G: Graph, start: Point, s: BfsState, u: Point, es: seq<MapEdge>)
    ensures forall e :: e in es && e.to in G ==> e.to in DiscoverAll(G, start, s, u, es).V
  {
    if es != [] {
      var m := |es| - 1;
      var r0 := DiscoverAll(G, start, s, u, es[..m]);
      DiscoverAllEnds(G, start, s, u, es[..m]);
      forall e | e in es && e.to in G
        ensures e.to in DiscoverOne(G, start, r0, u, es[m]).V
      {
        if e != es[m] {
          assert e in es[..m];
        }
      }
    }
  }

  lemma DiscoverAllStep(G: Graph, start: Point, s: BfsState, u: Point, es: seq<MapEdge>, i: nat)
    requires i < |es|
    ensures DiscoverAll(G, start, s, u, es[..i + 1]) == DiscoverOne(G, start, DiscoverAll(G, start, s, u, es[..i]), u, es[i])
  {
    assert es[..i + 1][..i] == es[..i];
  }

  /** From the queue `Q0` and discovered set `V0` to `Q` and `V`, every point
      was queued once more exactly when it was newly discovered. */
  ghost predicate QueuedOnDiscovery(V0: set<Point>, Q0: multiset<Point>, V: set<Point>, Q: multiset<Point>) {
    V0 <= V && forall p :: Q[p] == Q0[p] + (if p in V && p !in V0 then 1 else 0)
  }

  /** The pass over the edges of `u` queues a point only when it discovers
      it, and a point is discovered at most once. */
  lemma {:induction false} DiscoverAllQueues(G: Graph, start: Point, s: BfsState, u: Point, es: seq<MapEdge>)
    ensures QueuedOnDiscovery(s.V, s.Q, DiscoverAll(G, start, s, u, es).V, DiscoverAll(G, start, s, u, es).Q)
  {
    if es != [] {
      DiscoverAllQueues(G, start, s, u, es[..|es| - 1]);
    }
  }

  /** `enq` counts every entry ever put in the `bfs` queue, `V` being the
      discovered points: the start is queued once at the beginning and once
      more if it is discovered later, every other point once, when it is
      discovered. */
  ghost predicate QueuedCounts(start: Point, enq: multiset<Point>, V: set<Point>) {
    forall p :: enq[p] == (if p == start then 1 else 0) + (if p in V then 1 else 0)
  }

  /** A pass of the `bfs` loop that takes `u` off the queue and then queues
      what it discovers keeps the count. */
  lemma QueuedCountsStep(start: Point, enq: multiset<Point>, V0: set<Point>, Q0: multiset<Point>,
                         V: set<Point>, Q: multiset<Point>)
    requires QueuedCounts(start, enq, V0) && QueuedOnDiscovery(V0, Q0, V, Q)
    ensures QueuedCounts(start, enq + (Q - Q0), V)
  {
    forall p
      ensures (enq + (Q - Q0))[p] == (if p == start then 1 else 0) + (if p in V then 1 else 0)
    {
      assert (Q - Q0)[p] == if p in V && p !in V0 then 1 else 0;
    }
  }

  /** Going through all edges of `u` completes it. */
  lemma DiscoverEdgesKeeps(G: Graph, start: Point, done: set<Point>, s: BfsState, u: Point)
    requires BfsInvAt(G, start, done, s, {u}) && u in done && u in G
    ensures BfsInvAt(G, start, done, DiscoverAll(G, start, s, u, G[u]), {})
  {
    DiscoverAllKeeps(G, start, done, s, u, G[u]);
    DiscoverAllEnds(G, start, s, u, G[u]);
  }

  /** The standing facts of the `bfs` loop between passes: the goal has not
      been gone through, since the loop stops when it comes off the queue. */
  ghost predicate BfsRunning(G: Graph, start: Point, goal: Point, done: set<Point>, V: set<Point>, Q: multiset<Point>,
                             P: map<Point, Point>, PE: map<Point, MapEdge>, rank: map<Point, nat>, counter: nat) {
    BfsInv(G, start, done, V, Q, P, PE, rank, counter, {}) && goal !in done
  }

  /** A pass of the `bfs` loop that takes `u`, not the goal, off the queue
      and goes through its edges keeps the standing facts, and visits more
      nodes or leaves a shorter queue. */
  lemma BfsExpandKeeps(G: Graph, start: Point, goal: Point, done: set<Point>, V: set<Point>, Q: multiset<Point>,
                       P: map<Point, Point>, PE: map<Point, MapEdge>, rank: map<Point, nat>, counter: nat, u: Point,
                       r: BfsState)
    requires BfsRunning(G, start, goal, done, V, Q, P, PE, rank, counter) && u in Q && u != goal && u in G
    requires r == DiscoverAll(G, start, BfsState(V, Q - multiset{u}, P, PE, rank, counter), u, G[u])
    ensures BfsRunning(G, start, goal, done + {u}, r.V, r.Q, r.P, r.PE, r.rank, r.counter)
    ensures |r.V| <= |G.Keys| && 2 * |G.Keys| - 2 * |r.V| + |r.Q| < 2 * |G.Keys| - 2 * |V| + |Q|
  {
    BfsVisitKeeps(G, start, done, V, Q, P, PE, rank, counter, u);
    var s := BfsState(V, Q - multiset{u}, P, PE, rank, counter);
    DiscoverEdgesKeeps(G, start, done + {u}, s, u);
    SubsetCount(V, r.V, G.Keys);
    assert |s.Q| == |Q| - 1;
  }

  /** Cardinality grows along subsets. */
  lemma SubsetCount(A: set<Point>, B: set<Point>, C: set<Point>)
    requires A <= B <= C
    ensures |A| <= |B| <= |C|
  {
    assert B == A + (B - A);
    assert C == B + (C - B);
  }

  /** An empty queue: everything reachable from `start` has been gone
      through, the goal was not among it, so it cannot be reached. */
  lemma BfsExhausted(G: Graph, start: Point, goal: Point, done: set<Point>, V: set<Point>, P: map<Point, Point>,
                     PE: map<Point, MapEdge>, rank: map<Point, nat>, counter: nat)
    requires BfsRunning(G, start, goal, done, V, multiset{}, P, PE, rank, counter)
    ensures Reports(G, start, goal, false, false, P, rank, map[])
  {
    assert start in done;
    assert Closed(G, done);
    ClosedUnreachable(G, done, start, goal);
  }

  /** A queued goal has a parent chain, and it is a route to it. */
  lemma BfsFound(G: Graph, start: Point, done: set<Point>, V: set<Point>, Q: multiset<Point>,
                 P: map<Point, Point>, PE: map<Point, MapEdge>, rank: map<Point, nat>,
                 counter: nat, goal: Point)
    requires BfsInv(G, start, done, V, Q, P, PE, rank, counter, {}) && goal in Q
    ensures Reports(G, start, goal, false, true, P, rank, map[])
  {
    ChainIsRoute(G, P, PE, rank, start, goal);
    var es :| IsEdgePath(G, es, start, goal) && Stops(start, es) == Chain(P, rank, start, goal);
  }

}
