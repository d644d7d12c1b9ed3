/** basicgraph/GraphAdjList.kt: a graph stored as one list of out-neighbours
    per vertex, with a parallel edge listed once per copy. */
module AdjacencyLists {
  import opened Wrappers
  import opened BasicGraphs

  /** `adjListsMap`: vertex index to the ends of its edges, in the order the
      edges were added. */
  type Lists = map<int, seq<int>>

  /** The keys are exactly the vertex indices `0 .. n - 1`. */
  ghost predicate Indexed(lists: Lists, n: int) {
    forall v :: v in lists <==> 0 <= v < n
  }

  /** What `implementAddVertex` does to the map: vertex `v` gets an empty list. */
  function AddVertexTo(lists: Lists, v: int): (r: Lists)
  {
    lists[v := []]
  }

  /** What `implementAddEdge` does to the map: `w` is appended to the list
      of `v`; a `v` without a list (`?.add`) leaves the map as it was. */
  function AddEdgeTo(lists: Lists, v: int, w: int): (r: Lists)
  {
    if v in lists then lists[v := lists[v] + [w]] else lists
  }

  /** For every vertex below `n`, how many of its edges end at `v`. */
  ghost function InCounts(lists: Lists, v: int, n: nat): (r: seq<nat>)
    requires forall u :: 0 <= u < n ==> u in lists
    ensures |r| == n && forall u :: 0 <= u < n ==> r[u] == multiset(lists[u])[v]
  {
    seq(n, u requires 0 <= u < n => multiset(lists[u])[v])
  }

  /** The vertices with an edge to `v`, ascending, one entry per edge. */
  ghost function InNeighbors(lists: Lists, v: int, n: nat): seq<int>
    requires forall u :: 0 <= u < n ==> u in lists
  {
    Expand(InCounts(lists, v, n))
  }

  /** `getInNeighbors(v)` lists `u` once for each edge `u -> v`, and nothing
      else. */
  lemma InNeighborsCount(lists: Lists, v: int, n: nat, u: int)
    requires Indexed(lists, n)
    ensures multiset(InNeighbors(lists, v, n))[u] == if u in lists then multiset(lists[u])[v] else 0
  {
    ExpandCount(InCounts(lists, v, n), u);
  }

  /** The lists of the vertices `us`, one after another; null (and so a
      `NullPointerException`) as soon as one of them has no list. */
  function TwoHops(lists: Lists, us: seq<int>): (r: Result<seq<int>>)
    ensures r.Failure? <==> exists k :: 0 <= k < |us| && us[k] !in lists
    ensures r.Failure? ==> r.error == NullPointer
  {
    if us == [] then Success([])
    else
      var m := |us| - 1;
      var init := TwoHops(lists, us[..m]);
      assert forall k :: 0 <= k < m ==> us[..m][k] == us[k];
      if init.Failure? || us[m] !in lists then Failure(NullPointer)
      else Success(init.value + lists[us[m]])
  }

  /** What `getDistance2(v)` returns. */
  function Distance2(lists: Lists, v: int): Result<seq<int>> {
    if v in lists then TwoHops(lists, lists[v]) else Failure(NullPointer)
  }

  /** A two-hop list holds exactly the ends of walks `v -> u -> x`. */
  lemma {:induction false} TwoHopsMembers(lists: Lists, us: seq<int>, x: int)
    requires TwoHops(lists, us).Success?
    ensures x in TwoHops(lists, us).value <==> exists k :: 0 <= k < |us| && x in lists[us[k]]
  {
    if us != [] {
      var m := |us| - 1;
      TwoHopsMembers(lists, us[..m], x);
      assert forall k :: 0 <= k < m ==> us[..m][k] == us[k];
    }
  }

  /** `getDistance2(v)` contains `x` exactly when some out-neighbour of `v`
      has an edge to `x`. */
  lemma Distance2Members(lists: Lists, v: int, x: int)
    requires Distance2(lists, v).Success?
    ensures v in lists
    ensures x in Distance2(lists, v).value <==> exists k :: 0 <= k < |lists[v]| && x in lists[lists[v][k]]
  {
    TwoHopsMembers(lists, lists[v], x);
  }

  /** When every vertex of `us` has the single edge to `x`, the two-hop list
      is `x` once per entry of `us`. */
  lemma {:induction false} TwoHopsToHub(lists: Lists, us: seq<int>, x: int)
    requires forall k :: 0 <= k < |us| ==> us[k] in lists && lists[us[k]] == [x]
    ensures TwoHops(lists, us) == Success(Repeat(x, |us|))
  {
    if us != [] {
      var m := |us| - 1;
      assert forall k :: 0 <= k < m ==> us[..m][k] == us[k];
      TwoHopsToHub(lists, us[..m], x);
    }
  }

  /** The star graph: a hub with edges to and from every other vertex. From
      the hub, every two-hop walk comes back to it, once per arm. */
  lemma StarDistance2(lists: Lists, hub: int)
    requires hub in lists
    requires forall k :: 0 <= k < |lists[hub]| ==> lists[hub][k] in lists && lists[lists[hub][k]] == [hub]
    ensures Distance2(lists, hub) == Success(Repeat(hub, |lists[hub]|))
  {
    TwoHopsToHub(lists, lists[hub], hub);
  }

  /** The degree of each vertex below `n`: in-edges plus out-edges. */
  ghost function Degrees(lists: Lists, n: nat): (r: seq<int>)
    requires forall u :: 0 <= u < n ==> u in lists
    ensures |r| == n
  {
    seq(n, v requires 0 <= v < n => |InNeighbors(lists, v, n)| + |lists[v]|)
  }

  /** `GraphAdjList`: the base counters and labels plus the adjacency-list
      map. */
  class GraphAdjList {
    const base: Graph
    var adjListsMap: Lists

    /** The map has a list for every vertex and none for any other index;
        every stored end is below the vertex count (it can be negative). */
    ghost predicate Valid()
      reads this, base
    {
      && Indexed(adjListsMap, base.numVertices)
      && forall v, k :: v in adjListsMap && 0 <= k < |adjListsMap[v]| ==> adjListsMap[v][k] < base.numVertices
    }

    constructor ()
      ensures Valid() && fresh(base)
      ensures base.numVertices == 0 && base.numEdges == 0 && base.vertexLabels == None
      ensures adjListsMap == map[]
    {
      base := new Graph();
      adjListsMap := map[];
    }

    /** `implementAddVertex`: an empty list for the index the new vertex
        will get. */
    method ImplementAddVertex()
      modifies this`adjListsMap
      ensures adjListsMap == AddVertexTo(old(adjListsMap), base.numVertices)
    {
      var v := base.numVertices;
      adjListsMap := adjListsMap[v := []];
    }

    /** `implementAddEdge`: `adjListsMap[v]?.add(w)`. */
    method ImplementAddEdge(v: int, w: int)
      modifies this`adjListsMap
      ensures adjListsMap == AddEdgeTo(old(adjListsMap), v, w)
    {
      if v in adjListsMap {
        adjListsMap := adjListsMap[v := adjListsMap[v] + [w]];
      }
    }

    /** `addVertex`: the new vertex is the next index and has no edges. */
    method AddVertex() returns (index: int)
      requires Valid()
      modifies this`adjListsMap, base`numVertices
      ensures Valid()
      ensures index == old(base.numVertices) && base.numVertices == index + 1
      ensures adjListsMap == AddVertexTo(old(adjListsMap), index)
    {
      ImplementAddVertex();
      index := base.AddVertex();
    }

    /** `addEdge`: counts the edge, then throws for an index at or above the
        vertex count, otherwise appends `w` to the list of `v` (a negative
        `v` has no list, so nothing is stored). */
    method AddEdge(v: int, w: int) returns (outcome: Outcome)
      requires Valid()
      modifies this`adjListsMap, base`numEdges
      ensures Valid()
      ensures base.numEdges == old(base.numEdges) + 1
      ensures outcome.Pass? <==> v < base.numVertices && w < base.numVertices
      ensures outcome.Fail? ==> outcome.error == IndexOutOfBounds
      ensures adjListsMap == if outcome.Pass? then AddEdgeTo(old(adjListsMap), v, w) else old(adjListsMap)
    {
      outcome := base.AddEdge(v, w);
      if outcome.Pass? {
        ImplementAddEdge(v, w);
      }
    }

    /** `getNeighbors`: a copy of the list of `v`, one entry per edge;
        `ArrayList(null)` throws when `v` has no list. */
    function GetNeighbors(v: int): (r: Result<seq<int>>)
      reads this`adjListsMap
      ensures r.Success? <==> v in adjListsMap
      ensures r.Success? ==> r.value == adjListsMap[v]
      ensures r.Failure? ==> r.error == NullPointer
    {
      if v in adjListsMap then Success(adjListsMap[v]) else Failure(NullPointer)
    }

    /** `getInNeighbors`: for every vertex `u` (keys in ascending order) and
        every edge of `u`, `u` once when the edge ends at `v`. */
    method GetInNeighbors(v: int) returns (inNeighbors: seq<int>)
      requires Valid()
      ensures inNeighbors == InNeighbors(adjListsMap, v, base.numVertices)
    {
      var n := base.numVertices;
      ghost var counts := InCounts(adjListsMap, v, n);
      inNeighbors := [];
      for u := 0 to n
        invariant inNeighbors == Expand(counts[..u])
      {
        var edges := adjListsMap[u];
        for j := 0 to |edges|
          invariant inNeighbors == Expand(counts[..u]) + Repeat(u, multiset(edges[..j])[v])
        {
          assert edges[..j + 1] == edges[..j] + [edges[j]];
          if edges[j] == v {
            inNeighbors := inNeighbors + [u];
          }
        }
        assert edges[..|edges|] == edges;
        ExpandSnoc(counts, u);
      }
      assert counts[..n] == counts;
    }

    /** `getDistance2`: the lists of the out-neighbours of `v`, one after
        another, duplicates kept. */
    method GetDistance2(v: int) returns (r: Result<seq<int>>)
      ensures r == Distance2(adjListsMap, v)
    {
      var neighbors := GetNeighbors(v);
      if neighbors.Failure? {
        return Failure(NullPointer);
      }
      var us := neighbors.value;
      var twoHops := [];
      for i := 0 to |us|
        invariant TwoHops(adjListsMap, us[..i]) == Success(twoHops)
      {
        assert us[..i + 1][..i] == us[..i];
        var hop := GetNeighbors(us[i]);
        if hop.Failure? {
          assert us[..i + 1][i] == us[i];
          TwoHopsFailure(adjListsMap, us, i);
          return Failure(NullPointer);
        }
        twoHops := twoHops + hop.value;
      }
      assert us[..|us|] == us;
      r := Success(twoHops);
    }

    /** `degreeSequence`: in-degree plus out-degree of every vertex, largest
        first. */
    method DegreeSequence() returns (degrees: seq<int>)
      requires Valid()
      ensures degrees == SortedDescending(Degrees(adjListsMap, base.numVertices))
      ensures |degrees| == base.numVertices && NonIncreasing(degrees)
      ensures multiset(degrees) == multiset(Degrees(adjListsMap, base.numVertices))
    {
      var n := base.numVertices;
      var degreeSeq := [];
      for v := 0 to n
        invariant |degreeSeq| == v
        invariant forall u :: 0 <= u < v ==> degreeSeq[u] == Degrees(adjListsMap, n)[u]
      {
        var ins := GetInNeighbors(v);
        var outs := GetNeighbors(v);
        degreeSeq := degreeSeq + [|ins| + |outs.value|];
      }
      assert degreeSeq == Degrees(adjListsMap, n);
      degrees := SortedDescending(degreeSeq);
    }
  }

  /** A vertex of `us` without a list makes the whole two-hop list fail. */
  lemma TwoHopsFailure(lists: Lists, us: seq<int>, i: nat)
    requires i < |us| && us[i] !in lists
    ensures TwoHops(lists, us) == Failure(NullPointer)
  {
  }
}
