/** The road graph (roadgraph/MapGraph.kt): intersections mapped to their
    nodes, the list of all edges, and the three searches. The searches keep
    their working state in the nodes' `length` fields, as the Kotlin code
    does, and are proved against the step functions and invariants of
    module Searches. */
module MapGraphs {
  import opened Wrappers
  import opened Geography
  import opened MapNodes
  import opened Routes
  import opened Searches

  class MapGraph {
    var graph: map<Point, MapNode>
    var edgeList: seq<MapEdge>

    /** The edges leaving every vertex. */
    ghost function Adjacency(): (G: Graph)
      reads this, graph.Values`edgeList
      ensures G.Keys == graph.Keys
    {
      map p | p in graph :: graph[p].edgeList
    }

    /** The `length` of every node. */
    ghost function Lengths(): (D: map<Point, Extended>)
      reads this, graph.Values`length
      ensures D.Keys == graph.Keys
    {
      map p | p in graph :: graph[p].length
    }

    /** The `predictedLength` of every node. */
    ghost function Predicted(): (D: map<Point, Extended>)
      reads this, graph.Values`predictedLength
      ensures D.Keys == graph.Keys
    {
      map p | p in graph :: graph[p].predictedLength
    }

    /** Every node is keyed by its own location, so distinct keys hold
        distinct nodes. */
    ghost predicate Distinct()
      reads this
    {
      forall p :: p in graph ==> graph[p].location == p
    }

    /** The nodes are distinct, every edge starts at the node that lists it,
        ends at a vertex and is positive, and every edge of `edgeList` is
        listed by its start node. */
    ghost predicate Valid()
      reads this, graph.Values`edgeList
    {
      && Distinct()
      && WellFormed(Adjacency())
      && (forall e :: e in edgeList ==> IsEdge(Adjacency(), e))
    }

    constructor ()
      ensures graph == map[] && edgeList == []
      ensures Valid()
    {
      graph := map[];
      edgeList := [];
    }

    /** `getNumVertices`. */
    function GetNumVertices(): (n: nat)
      reads this
      ensures n == |graph.Keys|
    {
      |graph|
    }

    /** `getVertices`. */
    function GetVertices(): (vs: set<Point>)
      reads this
      ensures forall p :: p in vs <==> p in graph
    {
      graph.Keys
    }

    /** `getNumEdges`: edges are compared by identity, so every successful
        `addEdge` counts, duplicates included. */
    function GetNumEdges(): (n: nat)
      reads this
      ensures n == |edgeList|
    {
      |edgeList|
    }

    /** `addVertex`: adds a fresh node without edges when the location is
        given and new; otherwise changes nothing. */
    method AddVertex(location: Option<Point>) returns (added: bool)
      requires Valid()
      modifies this`graph
      ensures Valid()
      ensures added <==> location.Some? && location.value !in old(graph)
      ensures added ==> graph.Keys == old(graph.Keys) + {location.value}
      ensures added ==> fresh(graph[location.value]) && |graph| == old(|graph|) + 1
      ensures added ==> Adjacency() == old(Adjacency())[location.value := []]
      ensures added ==> Lengths() == old(Lengths())[location.value := Finite(0.0)]
      ensures added ==> forall p :: p in old(graph) ==> graph[p] == old(graph[p])
      ensures !added ==> graph == old(graph) && Adjacency() == old(Adjacency())
    {
      if location.Some? && location.value !in graph {
        ghost var G, D := Adjacency(), Lengths();
        var node := new MapNode(location.value);
        graph := graph[location.value := node];
        assert Adjacency() == G[location.value := []];
        assert Lengths() == D[location.value := Finite(0.0)];
        AddVertexKeeps(G, location.value);
        added := true;
      } else {
        added := false;
      }
    }

    /** `addEdge`: a positive length and two vertices are required, checked
        in that order, each failure an `IllegalArgumentException` that leaves
        the graph as it was. Otherwise the start node and `edgeList` each get
        one more edge. */
    method AddEdge(from: Point, to: Point, roadName: string, roadType: string, length: real) returns (o: Outcome)
      requires Valid()
      modifies this`edgeList, graph.Values`edgeList
      ensures Valid()
      ensures o.Pass? <==> length > 0.0 && from in graph && to in graph
      ensures o.Fail? ==> o.error == IllegalArgument
      ensures o.Fail? ==> edgeList == old(edgeList) && Adjacency() == old(Adjacency())
      ensures o.Pass? ==> edgeList == old(edgeList) + [MapEdge(from, to, roadName, roadType, length)]
      ensures o.Pass? ==> Adjacency() == old(Adjacency())[from := old(Adjacency())[from] + [MapEdge(from, to, roadName, roadType, length)]]
    {
      if !(length > 0.0) {
        return Fail(IllegalArgument);
      }
      if from !in graph {
        return Fail(IllegalArgument);
      }
      if to !in graph {
        return Fail(IllegalArgument);
      }
      ghost var G := Adjacency();
      var e := MapEdge(from, to, roadName, roadType, length);
      graph[from].AddEdgeTo(to, roadName, roadType, length);
      edgeList := edgeList + [e];
      assert Adjacency() == G[from := G[from] + [e]];
      AddEdgeKeeps(G, e);
      o := Pass;
    }

    /** `initLengthInfinite`: every node's `length` and `predictedLength`
        become `Double.MAX_VALUE`, whatever the order the nodes are visited in. */
    method InitLengthInfinite()
      modifies graph.Values`length, graph.Values`predictedLength
      ensures Adjacency() == old(Adjacency())
      ensures Lengths() == (map p | p in graph :: Infinity)
      ensures Predicted() == (map p | p in graph :: Infinity)
    {
      var remaining := graph.Keys;
      while remaining != {}
        invariant remaining <= graph.Keys
        invariant forall p :: p in graph && p !in remaining ==> graph[p].length == Infinity && graph[p].predictedLength == Infinity
        decreases remaining
      {
        var p :| p in remaining;
        var n := graph[p];
        n.length := Infinity;
        n.predictedLength := Infinity;
        remaining := remaining - {p};
      }
    }

    /** `node.length = v` for the node at `p`: the one length changes. */
    method SetLength(p: Point, v: Extended)
      requires Distinct() && p in graph
      modifies {graph[p]}`length
      ensures Lengths() == old(Lengths())[p := v]
      ensures Adjacency() == old(Adjacency()) && Predicted() == old(Predicted())
    {
      graph[p].length := v;
    }

    /** `buildPath`: follows parent links from `goal` back to `start`,
        putting each point in front; the result is the parent chain. */
    method BuildPath(parentMap: map<Point, Point>, goal: Point, start: Point, ghost rank: map<Point, nat>) returns (route: seq<Point>)
      requires Ranked(parentMap, rank, start) && (goal == start || goal in parentMap)
      ensures route == Chain(parentMap, rank, start, goal)
      ensures Adjacency() == old(Adjacency()) && Lengths() == old(Lengths())
    {
      route := [];
      var curr := goal;
      while curr != start
        invariant curr == start || curr in parentMap
        invariant Chain(parentMap, rank, start, curr) + route == Chain(parentMap, rank, start, goal)
        decreases rank[curr]
      {
        route := [curr] + route;
        curr := parentMap[curr];
      }
      route := [start] + route;
    }

    /** One pass of the loop over the edges of `u` in `bfs`: the end of `e`,
        when it is a vertex not visited yet, is marked visited, queued and
        given `u` as parent. Nodes are keyed by their own location, so the
        set of visited nodes is kept as the set of their points. The new
        state is that of `DiscoverOne`. */
    method DiscoverEdge(u: Point, start: Point, e: MapEdge, visited0: set<Point>, queue0: multiset<Point>, parents0: map<Point, Point>,
                        ghost PE0: map<Point, MapEdge>, ghost rank0: map<Point, nat>, ghost counter0: nat)
      returns (visited: set<Point>, queue: multiset<Point>, parents: map<Point, Point>,
               ghost PE: map<Point, MapEdge>, ghost rank: map<Point, nat>, ghost counter: nat)
      ensures BfsState(visited, queue, parents, PE, rank, counter) ==
              DiscoverOne(Adjacency(), start, BfsState(visited0, queue0, parents0, PE0, rank0, counter0), u, e)
    {
      visited, queue, parents, PE, rank, counter := visited0, queue0, parents0, PE0, rank0, counter0;
      if e.to in graph && e.to !in visited {
        visited := visited + {e.to};
        queue := queue + multiset{e.to};
        parents := parents[e.to := u];
        PE := PE[e.to := e];
        if e.to != start {
          rank := rank[e.to := counter];
        }
        counter := counter + 1;
      }
    }

    /** The loop over the edges of `u` in `bfs`: the new state is that of
        `DiscoverAll` over the edges of `u`. */
    method DiscoverEdges(u: Point, start: Point, visited0: set<Point>, queue0: multiset<Point>, parents0: map<Point, Point>,
                         ghost PE0: map<Point, MapEdge>, ghost rank0: map<Point, nat>, ghost counter0: nat)
      returns (visited: set<Point>, queue: multiset<Point>, parents: map<Point, Point>,
               ghost PE: map<Point, MapEdge>, ghost rank: map<Point, nat>, ghost counter: nat)
      requires u in graph
      ensures BfsState(visited, queue, parents, PE, rank, counter) ==
              DiscoverAll(Adjacency(), start, BfsState(visited0, queue0, parents0, PE0, rank0, counter0), u, Adjacency()[u])
      ensures QueuedOnDiscovery(visited0, queue0, visited, queue)
    {
      ghost var s0 := BfsState(visited0, queue0, parents0, PE0, rank0, counter0);
      var edges := graph[u].edgeList;
      visited, queue, parents, PE, rank, counter := visited0, queue0, parents0, PE0, rank0, counter0;
      for i := 0 to |edges|
        invariant BfsState(visited, queue, parents, PE, rank, counter) == DiscoverAll(Adjacency(), start, s0, u, edges[..i])
      {
        DiscoverAllStep(Adjacency(), start, s0, u, edges, i);
        visited, queue, parents, PE, rank, counter := DiscoverEdge(u, start, edges[i], visited, queue, parents, PE, rank, counter);
      }
      assert edges[..|edges|] == edges;
      DiscoverAllQueues(Adjacency(), start, s0, u, edges);
    }

    /** Going through the edges of `u`, just taken off the queue and not the
        goal: the invariant of the main loop of `bfs` holds again, with more
        nodes visited or a shorter queue. */
    method ExpandBfsNode(u: Point, start: Point, ghost goal: Point, ghost G: Graph, ghost done0: set<Point>, queue0: multiset<Point>,
                         visited0: set<Point>, parents0: map<Point, Point>,
                         ghost PE0: map<Point, MapEdge>, ghost rank0: map<Point, nat>, ghost counter0: nat)
      returns (visited: set<Point>, queue: multiset<Point>, parents: map<Point, Point>,
               ghost PE: map<Point, MapEdge>, ghost rank: map<Point, nat>, ghost counter: nat)
      requires Adjacency() == G && u in queue0 && u != goal
      requires BfsRunning(G, start, goal, done0, visited0, queue0, parents0, PE0, rank0, counter0)
      ensures BfsRunning(G, start, goal, done0 + {u}, visited, queue, parents, PE, rank, counter)
      ensures |visited| <= |G.Keys| && 2 * |G.Keys| - 2 * |visited| + |queue| < 2 * |G.Keys| - 2 * |visited0| + |queue0|
      ensures QueuedOnDiscovery(visited0, queue0 - multiset{u}, visited, queue)
      ensures BfsState(visited, queue, parents, PE, rank, counter) ==
              DiscoverAll(G, start, BfsState(visited0, queue0 - multiset{u}, parents0, PE0, rank0, counter0), u, G[u])
    {
      visited, queue, parents, PE, rank, counter := DiscoverEdges(u, start, visited0, queue0 - multiset{u}, parents0, PE0, rank0, counter0);
      BfsExpandKeeps(G, start, goal, done0, visited0, queue0, parents0, PE0, rank0, counter0, u,
                     BfsState(visited, queue, parents, PE, rank, counter));
    }

    /** One pass of the main loop of `bfs`: a queued node of least length,
        `taken`, is taken out. The goal leaves the rest as it was; any other
        node has its edges gone through as `DiscoverAll` does, after which
        the invariant of the loop holds again, with more nodes visited or a
        shorter queue. `enqueued0` counts what was ever queued before the
        pass, `enqueued` adds what the pass queues. */
    method BfsStep(start: Point, goal: Point, ghost G: Graph, ghost done0: set<Point>, queue0: multiset<Point>, visited0: set<Point>,
                   parents0: map<Point, Point>, ghost PE0: map<Point, MapEdge>, ghost rank0: map<Point, nat>, ghost counter0: nat,
                   ghost enqueued0: multiset<Point>)
      returns (found: bool, ghost taken: Point, ghost done: set<Point>, queue: multiset<Point>, visited: set<Point>,
               parents: map<Point, Point>, ghost PE: map<Point, MapEdge>, ghost rank: map<Point, nat>, ghost counter: nat,
               ghost enqueued: multiset<Point>)
      requires Adjacency() == G && queue0 != multiset{}
      requires BfsRunning(G, start, goal, done0, visited0, queue0, parents0, PE0, rank0, counter0)
      requires QueuedCounts(start, enqueued0, visited0)
      ensures IsMin(Lengths(), queue0, taken) && (found <==> taken == goal)
      ensures found ==> visited == visited0 && queue == queue0 - multiset{taken} && parents == parents0
      ensures !found ==> BfsState(visited, queue, parents, PE, rank, counter) ==
                         DiscoverAll(G, start, BfsState(visited0, queue0 - multiset{taken}, parents0, PE0, rank0, counter0), taken, G[taken])
      ensures QueuedCounts(start, enqueued, visited)
      ensures found ==> Reports(G, start, goal, false, found, parents, rank, map[])
      ensures !found ==> BfsRunning(G, start, goal, done, visited, queue, parents, PE, rank, counter)
      ensures !found ==> |visited| <= |G.Keys| && 2 * |G.Keys| - 2 * |visited| + |queue| < 2 * |G.Keys| - 2 * |visited0| + |queue0|
    {
      var u := TakeMin(queue0, Lengths());
      taken := u;
      found, done, queue, visited, parents, PE, rank, counter := false, done0, queue0 - multiset{u}, visited0, parents0, PE0, rank0, counter0;
      enqueued := enqueued0;
      if u == goal {
        BfsFound(G, start, done0, visited0, queue0, parents0, PE0, rank0, counter0, goal);
        found := true;
        return;
      }
      done := done0 + {u};
      visited, queue, parents, PE, rank, counter := ExpandBfsNode(u, start, goal, G, done0, queue0, visited0, parents0, PE0, rank0, counter0);
      enqueued := enqueued0 + (queue - (queue0 - multiset{u}));
      QueuedCountsStep(start, enqueued0, visited0, queue0 - multiset{u}, visited, queue);
    }

    /** The main loop of `bfs`, from the start alone in the queue and nothing
        visited: it ends when the queue is empty or the goal comes off it.
        The goal is found exactly when it can be reached, and then its parent
        chain is a route to it. `enqueued` holds every entry ever put in the
        queue: no point more than once, except that the start can come back
        once. */
    method BfsLoop(start: Point, goal: Point, ghost G: Graph)
      returns (found: bool, parents: map<Point, Point>, ghost rank: map<Point, nat>, ghost enqueued: multiset<Point>)
      requires Adjacency() == G && WellFormed(G) && start in G
      ensures Reports(G, start, goal, false, found, parents, rank, map[])
      ensures forall p :: enqueued[p] <= if p == start then 2 else 1
    {
      var queue := multiset{start};
      var visited: set<Point> := {};
      parents := map[];
      ghost var PE: map<Point, MapEdge> := map[];
      rank := map[start := 0];
      ghost var counter: nat := 1;
      ghost var done: set<Point> := {};
      enqueued := multiset{start};
      BfsInitialInv(G, start);
      while queue != multiset{}
        invariant BfsRunning(G, start, goal, done, visited, queue, parents, PE, rank, counter)
        invariant QueuedCounts(start, enqueued, visited)
        invariant |visited| <= |G.Keys|
        decreases 2 * |G.Keys| - 2 * |visited| + |queue|
      {
        ghost var taken;
        found, taken, done, queue, visited, parents, PE, rank, counter, enqueued :=
          BfsStep(start, goal, G, done, queue, visited, parents, PE, rank, counter, enqueued);
        if found {
          return;
        }
      }
      BfsExhausted(G, start, goal, done, visited, parents, PE, rank, counter);
      found := false;
    }

    /** `bfs`: no route means one of the points is not a vertex or the goal
        cannot be reached; a route is a walk from start to goal. */
    method Bfs(start: Point, goal: Point) returns (route: Option<seq<Point>>, ghost enqueued: multiset<Point>)
      requires Valid()
      ensures route.None? <==> start !in graph || goal !in graph || !Reachable(Adjacency(), start, goal)
      ensures route.Some? ==> IsRoute(Adjacency(), route.value, start, goal)
      ensures start == goal && start in graph ==> route == Some([start])
      ensures forall p :: enqueued[p] <= if p == start then 2 else 1
    {
      enqueued := multiset{};
      if start !in graph || goal !in graph {
        route := None;
        return;
      }
      var found, parents;
      ghost var rank;
      found, parents, rank, enqueued := BfsLoop(start, goal, Adjacency());
      if start == goal {
        assert IsEdgePath(Adjacency(), [], start, start);
      }
      if !found {
        route := None;
        return;
      }
      var path := BuildPath(parents, goal, start, rank);
      route := Some(path);
    }

    /** One pass of the loop over the edges of `u` in `dijkstra` and
        `aStarSearch` (`h` zero for the first, the estimate to the goal for
        the second): a neighbour that is a vertex, unvisited, and longer than
        the length through `u` gets that length, `u` as parent, and is queued.
        The new lengths, queue and parent map are those of `RelaxOne`. */
    method RelaxEdge(u: Point, visited: set<Point>, h: Point -> real, n: MapEdge, queue0: multiset<Point>, parents0: map<Point, Point>,
                     ghost PE0: map<Point, MapEdge>, ghost rank0: map<Point, nat>, ghost counter0: nat)
      returns (queue: multiset<Point>, parents: map<Point, Point>,
               ghost PE: map<Point, MapEdge>, ghost rank: map<Point, nat>, ghost counter: nat)
      requires Distinct() && u in graph && graph[u].length.Finite?
      modifies graph.Values`length
      ensures Adjacency() == old(Adjacency()) && Predicted() == old(Predicted())
      ensures SearchState(Lengths(), queue, parents, PE, rank, counter) ==
              RelaxOne(SearchState(old(Lengths()), queue0, parents0, PE0, rank0, counter0), visited, u, n, h)
    {
      ghost var r0 := SearchState(Lengths(), queue0, parents0, PE0, rank0, counter0);
      RelaxOneEffect(r0, visited, u, n, h);
      queue, parents, PE, rank, counter := queue0, parents0, PE0, rank0, counter0;
      if n.to in graph {
        var temp := graph[n.to];
        var through := Finite(graph[u].length.value + n.distance + h(n.to));
        if n.to !in visited && through.Below(temp.length) {
          SetLength(n.to, through);
          parents := parents[n.to := u];
          queue := queue + multiset{n.to};
          PE := PE[n.to := n];
          rank := rank[n.to := counter];
          counter := counter + 1;
          return;
        }
      }
    }

    /** The whole loop over the edges of the visited node `u`: the new
        lengths, queue and parent map are those of `RelaxAll`. */
    method RelaxEdges(u: Point, visited: set<Point>, h: Point -> real, ghost D0: map<Point, Extended>,
                      queue0: multiset<Point>, parents0: map<Point, Point>,
                      ghost PE0: map<Point, MapEdge>, ghost rank0: map<Point, nat>, ghost counter0: nat)
      returns (ghost D: map<Point, Extended>, queue: multiset<Point>, parents: map<Point, Point>,
               ghost PE: map<Point, MapEdge>, ghost rank: map<Point, nat>, ghost counter: nat)
      requires Distinct() && u in graph && u in visited && graph[u].length.Finite? && Lengths() == D0
      modifies graph.Values`length
      ensures Adjacency() == old(Adjacency()) && Predicted() == old(Predicted()) && Lengths() == D
      ensures SearchState(D, queue, parents, PE, rank, counter) ==
              RelaxAll(SearchState(D0, queue0, parents0, PE0, rank0, counter0), visited, u, Adjacency()[u], h)
    {
      ghost var s0 := SearchState(D0, queue0, parents0, PE0, rank0, counter0);
      var edges := graph[u].edgeList;
      queue, parents, PE, rank, counter := queue0, parents0, PE0, rank0, counter0;
      for i := 0 to |edges|
        invariant edges == graph[u].edgeList && graph[u].length == s0.D[u]
        invariant Adjacency() == old(Adjacency()) && Predicted() == old(Predicted())
        invariant SearchState(Lengths(), queue, parents, PE, rank, counter) == RelaxAll(s0, visited, u, edges[..i], h)
      {
        RelaxAllStep(s0, visited, u, edges, i, h);
        queue, parents, PE, rank, counter := RelaxEdge(u, visited, h, edges[i], queue, parents, PE, rank, counter);
      }
      assert edges[..|edges|] == edges;
      D := Lengths();
    }

    /** The relaxation of the edges of the node `u` just visited, which is
        not the goal: the invariant of the main loop holds again, and with no
        estimate the visited nodes stay settled. */
    method ExpandNode(u: Point, h: Point -> real, ghost zero: bool, ghost G: Graph, ghost start: Point, ghost goal: Point, visited: set<Point>,
                      ghost D0: map<Point, Extended>, queue0: multiset<Point>, parents0: map<Point, Point>,
                      ghost PE0: map<Point, MapEdge>, ghost rank0: map<Point, nat>, ghost counter0: nat)
      returns (ghost D: map<Point, Extended>, queue: multiset<Point>, parents: map<Point, Point>,
               ghost PE: map<Point, MapEdge>, ghost rank: map<Point, nat>, ghost counter: nat)
      requires Distinct() && Adjacency() == G && Lengths() == D0
      requires WellFormed(G) && Tree(G, h, start, visited, D0, queue0, parents0, PE0, rank0, counter0)
      requires Relaxed(G, h, visited, D0, {u}) && u in visited && goal !in visited
      requires zero ==> Settled(G, start, visited, D0)
      modifies graph.Values`length
      ensures Adjacency() == old(Adjacency()) && Predicted() == old(Predicted()) && Lengths() == D
      ensures Running(G, h, start, zero, goal, visited, D, queue, parents, PE, rank, counter)
      ensures SearchState(D, queue, parents, PE, rank, counter) ==
              RelaxAll(SearchState(D0, queue0, parents0, PE0, rank0, counter0), visited, u, G[u], h)
    {
      ghost var s := SearchState(D0, queue0, parents0, PE0, rank0, counter0);
      D, queue, parents, PE, rank, counter := RelaxEdges(u, visited, h, D0, queue0, parents0, PE0, rank0, counter0);
      RelaxEdgesKeeps(G, h, start, visited, s, u);
    }

    /** `priQueue.remove()`: a queued node of least length. */
    method TakeMin(queue: multiset<Point>, ghost D: map<Point, Extended>) returns (u: Point)
      requires Lengths() == D && queue != multiset{} && forall y :: y in queue ==> y in D
      ensures IsMin(D, queue, u)
      ensures Adjacency() == old(Adjacency()) && Predicted() == old(Predicted()) && Lengths() == old(Lengths())
    {
      ghost var m := MinExists(D, queue);
      assert m in queue && m in graph && forall y :: y in queue && y in graph ==> graph[m].length.AtMost(graph[y].length);
      u :| u in queue && u in graph && forall y :: y in queue && y in graph ==> graph[u].length.AtMost(graph[y].length);
    }

    /** One pass of the main loop of `dijkstra` and `aStarSearch`: a queued
        node of least length, `taken`, is taken out. A node visited before is
        skipped and nothing else changes. Otherwise it is visited, and
        appended to `settled`, the nodes visited so far in order; then
        either it is the goal (`found`) or its edges are relaxed as
        `RelaxAll` does. `D0` and `D` are the lengths before and after. */
    method SearchStep(start: Point, goal: Point, h: Point -> real, ghost zero: bool, ghost G: Graph, ghost nodes: set<MapNode>,
                      ghost D0: map<Point, Extended>, queue0: multiset<Point>, visited0: set<Point>, parents0: map<Point, Point>,
                      ghost PE0: map<Point, MapEdge>, ghost rank0: map<Point, nat>, ghost counter0: nat, ghost settled0: seq<Point>)
      returns (found: bool, ghost taken: Point, ghost D: map<Point, Extended>, queue: multiset<Point>, visited: set<Point>,
               parents: map<Point, Point>, ghost PE: map<Point, MapEdge>, ghost rank: map<Point, nat>, ghost counter: nat,
               ghost settled: seq<Point>)
      requires Distinct() && Adjacency() == G && Lengths() == D0
      requires zero ==> forall p :: h(p) == 0.0
      requires Running(G, h, start, zero, goal, visited0, D0, queue0, parents0, PE0, rank0, counter0)
      requires queue0 != multiset{} && nodes == graph.Values
      requires NoRepeats(settled0) && Elements(settled0) == visited0
      modifies nodes`length
      ensures Adjacency() == old(Adjacency()) && Predicted() == old(Predicted()) && Lengths() == D
      ensures found ==> Reached(G, h, start, zero, goal, visited, D, queue, parents, PE, rank, counter)
      ensures !found ==> Running(G, h, start, zero, goal, visited, D, queue, parents, PE, rank, counter)
      ensures |G.Keys - visited| < |G.Keys - visited0| || (visited == visited0 && |queue| < |queue0|)
      ensures IsMin(D0, queue0, taken)
      ensures NoRepeats(settled) && Elements(settled) == visited
      ensures taken in visited0 ==>
                !found && settled == settled0 && visited == visited0 && D == D0 && queue == queue0 - multiset{taken} && parents == parents0
      ensures taken !in visited0 ==> settled == settled0 + [taken] && visited == visited0 + {taken} && (found <==> taken == goal)
      ensures found ==> D == D0 && queue == queue0 - multiset{taken} && parents == parents0
      ensures taken !in visited0 && !found ==>
                SearchState(D, queue, parents, PE, rank, counter) ==
                RelaxAll(SearchState(D0, queue0 - multiset{taken}, parents0, PE0, rank0, counter0), visited, taken, G[taken], h)
    {
      var u := TakeMin(queue0, D0);
      taken := u;
      settled := settled0;
      found, D, queue, visited, parents, PE, rank, counter := false, D0, queue0 - multiset{u}, visited0, parents0, PE0, rank0, counter0;
      if u in visited0 {
        SkipRunning(G, h, start, zero, goal, visited0, D0, queue0, parents0, PE0, rank0, counter0, u);
      } else {
        VisitStep(G, h, start, zero, goal, visited0, D0, queue0, parents0, PE0, rank0, counter0, u);
        GrowingSubset(G.Keys, visited0, u);
        visited := visited0 + {u};
        NoRepeatsSnoc(settled0, u);
        ElementsSnoc(settled0, u);
        settled := settled0 + [u];
        if u == goal {
          found := true;
        } else {
          D, queue, parents, PE, rank, counter := ExpandNode(u, h, zero, G, start, goal, visited, D0, queue, parents, PE, rank, counter);
        }
      }
    }

    /** The main loop of `dijkstra` and `aStarSearch`, from the start
        queued with length zero and every other length `Double.MAX_VALUE`:
        it ends when the queue is empty or the goal is visited. The goal is
        found exactly when it can be reached; then its parent chain is a
        route to it, and with no estimate a shortest one, as long as the
        goal's final length. `settled` lists the visited nodes in the order
        they were visited: each vertex at most once, the goal last when it is
        found. */
    method SearchLoop(start: Point, goal: Point, h: Point -> real, ghost zero: bool, ghost G: Graph)
      returns (found: bool, parents: map<Point, Point>, ghost rank: map<Point, nat>, ghost D: map<Point, Extended>,
               ghost settled: seq<Point>)
      requires Distinct() && Adjacency() == G && WellFormed(G) && start in G && goal in G
      requires Lengths() == Unreached(G.Keys, start)
      requires zero ==> forall p :: h(p) == 0.0
      modifies graph.Values`length
      ensures Adjacency() == old(Adjacency()) && Predicted() == old(Predicted()) && Lengths() == D
      ensures Reports(G, start, goal, zero, found, parents, rank, D)
      ensures NoRepeats(settled) && Elements(settled) <= G.Keys
      ensures found ==> settled != [] && settled[|settled| - 1] == goal
    {
      D := Lengths();
      settled := [];
      ghost var nodes := graph.Values;
      var queue := multiset{start};
      var visited: set<Point> := {};
      parents := map[];
      ghost var PE: map<Point, MapEdge> := map[];
      rank := map[start := 0];
      ghost var counter: nat := 1;
      InitialInv(G, h, start);
      while queue != multiset{}
        invariant Distinct() && Adjacency() == G && Predicted() == old(Predicted()) && Lengths() == D && nodes == graph.Values
        invariant Running(G, h, start, zero, goal, visited, D, queue, parents, PE, rank, counter)
        invariant NoRepeats(settled) && Elements(settled) == visited
        decreases |G.Keys - visited|, |queue|
      {
        ghost var taken;
        found, taken, D, queue, visited, parents, PE, rank, counter, settled :=
          SearchStep(start, goal, h, zero, G, nodes, D, queue, visited, parents, PE, rank, counter, settled);
        if found {
          FoundGoal(G, h, start, visited, D, queue, parents, PE, rank, counter, goal, zero);
          return;
        }
      }
      NotFound(G, h, start, zero, goal, visited, D, parents, PE, rank, counter);
      found := false;
    }

    /** The body `dijkstra` and `aStarSearch` share, up to `buildPath`,
        with the estimate `h` added to every length (`zero` says it is zero,
        as in `dijkstra`): all lengths are reset, and when both points are
        vertices the start gets length zero and the main loop runs. The goal
        is found exactly when both points are vertices and the goal can be
        reached; then its parent chain is a route, and with no estimate a
        shortest one, as long as the goal's final `length`. `settled` lists
        the nodes visited, in order: no vertex twice, the goal last when it
        is found. */
    method BestFirst(start: Point, goal: Point, h: Point -> real, ghost zero: bool)
      returns (found: bool, parents: map<Point, Point>, ghost rank: map<Point, nat>, ghost settled: seq<Point>)
      requires Valid()
      requires zero ==> forall p :: h(p) == 0.0
      modifies graph.Values`length, graph.Values`predictedLength
      ensures Predicted() == (map p | p in graph :: Infinity)
      ensures start !in graph || goal !in graph ==> !found && Lengths() == (map p | p in graph :: Infinity)
      ensures found <==> start in graph && goal in graph && Reachable(Adjacency(), start, goal)
      ensures found ==> (goal == start || goal in parents) && Ranked(parents, rank, start)
      ensures found ==> IsRoute(Adjacency(), Chain(parents, rank, start, goal), start, goal)
      ensures found && zero ==>
                goal in graph && graph[goal].length.Finite? &&
                IsShortestRoute(Adjacency(), Chain(parents, rank, start, goal), start, goal, graph[goal].length.value)
      ensures NoRepeats(settled) && (forall p :: p in settled ==> p in graph)
      ensures found ==> settled != [] && settled[|settled| - 1] == goal
    {
      InitLengthInfinite();
      if start !in graph || goal !in graph {
        return false, map[], map[], [];
      }
      ghost var G := Adjacency();
      SetLength(start, Finite(0.0));
      assert Lengths() == Unreached(G.Keys, start);
      ghost var D;
      found, parents, rank, D, settled := SearchLoop(start, goal, h, zero, G);
    }

    /** `dijkstra`: the search without estimate. No route means one of the
        points is not a vertex or the goal cannot be reached; a route is a
        shortest walk from start to goal, as long as the goal's `length`.
        `settled` lists the nodes visited, in order: each vertex is visited
        at most once, and a route is returned right after the goal is. */
    method Dijkstra(start: Point, goal: Point) returns (route: Option<seq<Point>>, ghost settled: seq<Point>)
      requires Valid()
      modifies graph.Values`length, graph.Values`predictedLength
      ensures route.None? <==> start !in graph || goal !in graph || !Reachable(Adjacency(), start, goal)
      ensures route.Some? ==>
                goal in graph && graph[goal].length.Finite? &&
                IsShortestRoute(Adjacency(), route.value, start, goal, graph[goal].length.value)
      ensures start == goal && start in graph ==> route == Some([start])
      ensures NoRepeats(settled) && (forall p :: p in settled ==> p in graph)
      ensures route.Some? ==> settled != [] && settled[|settled| - 1] == goal
    {
      var found, parents;
      ghost var rank;
      found, parents, rank, settled := BestFirst(start, goal, p => 0.0, true);
      if start == goal && start in graph {
        assert IsEdgePath(Adjacency(), [], start, start);
      }
      if !found {
        route := None;
        return;
      }
      var path := BuildPath(parents, goal, start, rank);
      route := Some(path);
    }

    /** `aStarSearch`: the search whose lengths carry the estimate `dist`
        from each neighbour to the goal (`predictLength`). No route means one
        of the points is not a vertex or the goal cannot be reached; a route
        is a walk from start to goal. `settled` is as in `dijkstra`. */
    method AStarSearch(dist: Distance, start: Point, goal: Point) returns (route: Option<seq<Point>>, ghost settled: seq<Point>)
      requires Valid()
      modifies graph.Values`length, graph.Values`predictedLength
      ensures route.None? <==> start !in graph || goal !in graph || !Reachable(Adjacency(), start, goal)
      ensures route.Some? ==> IsRoute(Adjacency(), route.value, start, goal)
      ensures start == goal && start in graph ==> route == Some([start])
      ensures NoRepeats(settled) && (forall p :: p in settled ==> p in graph)
      ensures route.Some? ==> settled != [] && settled[|settled| - 1] == goal
    {
      var found, parents;
      ghost var rank;
      found, parents, rank, settled := BestFirst(start, goal, p => dist(p, goal), false);
      if start == goal && start in graph {
        assert IsEdgePath(Adjacency(), [], start, start);
      }
      if !found {
        route := None;
        return;
      }
      var path := BuildPath(parents, goal, start, rank);
      route := Some(path);
    }
  }
}
