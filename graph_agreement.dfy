/** The two teaching representations side by side: after the same calls of
    `addVertex` and `addEdge`, a `GraphAdjList` and a `GraphAdjMatrix`
    answer `getNeighbors`, `getInNeighbors`, `getDistance2` and
    `degreeSequence` alike, up to the order of the entries. An edge call
    with a negative index passes the range check of `addEdge`, and the
    matrix throws on it. An edge from a negative index is dropped by the
    lists, so the two still agree. An edge from a vertex to a negative index
    is stored by the lists: that is the one call after which they part. */
module Representations {
  import opened Wrappers
  import opened BasicGraphs
  import L = AdjacencyLists
  import M = AdjacencyMatrices

  /** The list map and the matrix describe the same multigraph on `n`
      vertices: as many copies of `w` in the list of `v` as the matrix counts
      edges from `v` to `w`, no list entry outside the vertices, and no edge
      in the matrix outside the vertex block. */
  ghost predicate Agree(lists: L.Lists, c: M.Cells, n: nat) {
    && L.Indexed(lists, n)
    && M.Square(c) && 0 < |c| && n <= |c| && M.Blank(c, n)
    && (forall v, k :: 0 <= v < n && 0 <= k < |lists[v]| ==> 0 <= lists[v][k] < n)
    && (forall v, w :: 0 <= v < n && 0 <= w < n ==> multiset(lists[v])[w] == c[v][w])
  }

  /** A call on a graph. */
  datatype Op = AddVertex | AddEdge(v: int, w: int)

  /** The state of a `GraphAdjList` that has run some calls. */
  datatype ListGraph = ListGraph(lists: L.Lists, numVertices: nat, numEdges: nat)

  /** The state of a `GraphAdjMatrix` that has run some calls. */
  datatype MatrixGraph = MatrixGraph(cells: M.Cells, numVertices: nat, numEdges: nat)

  /** One call on the list graph, as `GraphAdjList.AddVertex` and
      `GraphAdjList.AddEdge` perform it. */
  function ListStep(g: ListGraph, op: Op): ListGraph {
    match op
    case AddVertex => ListGraph(L.AddVertexTo(g.lists, g.numVertices), g.numVertices + 1, g.numEdges)
    case AddEdge(v, w) =>
      var lists := if v < g.numVertices && w < g.numVertices then L.AddEdgeTo(g.lists, v, w) else g.lists;
      ListGraph(lists, g.numVertices, g.numEdges + 1)
  }

  /** One call on the matrix graph, as `GraphAdjMatrix.AddVertex` and
      `GraphAdjMatrix.AddEdge` perform it. */
  function MatrixStep(g: MatrixGraph, op: Op): (r: MatrixGraph)
    requires M.Square(g.cells) && 0 < |g.cells| && g.numVertices <= |g.cells|
    ensures M.Square(r.cells) && 0 < |r.cells| && r.numVertices <= |r.cells|
  {
    match op
    case AddVertex =>
      var c := M.Grown(g.cells, g.numVertices);
      MatrixGraph(c, g.numVertices + 1, g.numEdges)
    case AddEdge(v, w) =>
      var c := if 0 <= v < g.numVertices && 0 <= w < g.numVertices then M.Incremented(g.cells, v, w) else g.cells;
      MatrixGraph(c, g.numVertices, g.numEdges + 1)
  }

  function ListRun(ops: seq<Op>): ListGraph {
    if ops == [] then ListGraph(map[], 0, 0)
    else ListStep(ListRun(ops[..|ops| - 1]), ops[|ops| - 1])
  }

  function MatrixRun(ops: seq<Op>): (r: MatrixGraph)
    ensures M.Square(r.cells) && 0 < |r.cells| && r.numVertices <= |r.cells|
  {
    if ops == [] then MatrixGraph(M.Zeros(M.DefaultNumVertices), 0, 0)
    else MatrixStep(MatrixRun(ops[..|ops| - 1]), ops[|ops| - 1])
  }

  /** The call after which the representations disagree: an edge from a
      vertex to a negative index, which passes the range check of `addEdge`.
      The lists store it; the matrix throws and keeps its cells. */
  predicate Diverging(op: Op, n: nat) {
    op.AddEdge? && 0 <= op.v < n && op.w < 0
  }

  /** Both new graphs are empty and agree. */
  lemma AgreeInitially()
    ensures Agree(map[], M.Zeros(M.DefaultNumVertices), 0)
  {
  }

  /** A new vertex keeps the representations in agreement. */
  lemma AgreeAddVertex(lists: L.Lists, c: M.Cells, n: nat)
    requires Agree(lists, c, n)
    ensures Agree(L.AddVertexTo(lists, n), M.Grown(c, n), n + 1)
  {
    var lists' := L.AddVertexTo(lists, n);
    var c' := M.Grown(c, n);
    M.GrownRoom(c, n);
    forall v, w | 0 <= v < n + 1 && 0 <= w < n + 1
      ensures multiset(lists'[v])[w] == c'[v][w]
    {
      if v < n && w < n {
        assert c'[v][w] == c[v][w];
      } else if v < n {
        assert w == n && w !in multiset(lists[v]);
      }
    }
  }

  /** An edge call other than the diverging one keeps the representations in
      agreement; both count it. */
  lemma AgreeAddEdge(lists: L.Lists, c: M.Cells, n: nat, v: int, w: int)
    requires Agree(lists, c, n) && !Diverging(AddEdge(v, w), n)
    ensures var lists' := if v < n && w < n then L.AddEdgeTo(lists, v, w) else lists;
            var c' := if 0 <= v < n && 0 <= w < n then M.Incremented(c, v, w) else c;
            Agree(lists', c', n)
  {
    if 0 <= v < n && 0 <= w < n {
      var lists' := L.AddEdgeTo(lists, v, w);
      var c' := M.Incremented(c, v, w);
      forall u, k | 0 <= u < n && 0 <= k < |lists'[u]|
        ensures 0 <= lists'[u][k] < n
      {
        if u == v && k == |lists[v]| {
          assert lists'[u][k] == w;
        } else if u == v {
          assert lists'[u][k] == lists[v][k];
        }
      }
    }
  }

  /** One step of the same call on agreeing states agrees again. */
  lemma StepAgrees(g: ListGraph, h: MatrixGraph, op: Op)
    requires Agree(g.lists, h.cells, g.numVertices) && h.numVertices == g.numVertices && h.numEdges == g.numEdges
    requires !Diverging(op, g.numVertices)
    ensures var g' := ListStep(g, op); var h' := MatrixStep(h, op);
            Agree(g'.lists, h'.cells, g'.numVertices) && h'.numVertices == g'.numVertices && h'.numEdges == g'.numEdges
  {
    match op
    case AddVertex => AgreeAddVertex(g.lists, h.cells, g.numVertices);
    case AddEdge(v, w) => AgreeAddEdge(g.lists, h.cells, g.numVertices, v, w);
  }

  /** No call of `ops` is the diverging one when it is made. */
  ghost predicate Comparable(ops: seq<Op>) {
    forall k :: 0 <= k < |ops| ==> !Diverging(ops[k], ListRun(ops[..k]).numVertices)
  }

  /** The same calls, none of them diverging, leave the two representations
      in agreement with the same counters. */
  lemma {:induction false} RunsAgree(ops: seq<Op>)
    requires Comparable(ops)
    ensures var g := ListRun(ops); var h := MatrixRun(ops);
            Agree(g.lists, h.cells, g.numVertices) && h.numVertices == g.numVertices && h.numEdges == g.numEdges
  {
    if ops == [] {
      AgreeInitially();
    } else {
      var m := |ops| - 1;
      var init := ops[..m];
      forall k | 0 <= k < |init|
        ensures !Diverging(init[k], ListRun(init[..k]).numVertices)
      {
        assert init[..k] == ops[..k];
      }
      RunsAgree(init);
      StepAgrees(ListRun(init), MatrixRun(init), ops[m]);
    }
  }

  /** On agreeing states, `getNeighbors(v)` of a vertex gives the same
      entries from both representations (the matrix lists them ascending). */
  lemma NeighborsAgree(lists: L.Lists, c: M.Cells, n: nat, v: int)
    requires Agree(lists, c, n) && 0 <= v < n
    ensures M.Neighbors(c, n, v).Success?
    ensures multiset(lists[v]) == multiset(M.Neighbors(c, n, v).value)
  {
    var r := M.Neighbors(c, n, v).value;
    forall x
      ensures multiset(lists[v])[x] == multiset(r)[x]
    {
      M.NeighborsCount(c, n, v, x);
      if !(0 <= x < n) {
        assert x !in lists[v];
      }
    }
  }

  /** On agreeing states, `getInNeighbors(v)` of a vertex is the same list
      from both representations, in the same order. */
  lemma InNeighborsAgree(lists: L.Lists, c: M.Cells, n: nat, v: int)
    requires Agree(lists, c, n) && 0 <= v < n
    ensures M.InNeighbors(c, n, v) == Success(L.InNeighbors(lists, v, n))
  {
    assert L.InCounts(lists, v, n) == M.Column(c, v, n);
  }

  /** Agreeing lists and rows give two-hop lists with the same entries. */
  lemma {:induction false} TwoHopsAgree(lists: L.Lists, c: M.Cells, n: nat, us: seq<int>)
    requires Agree(lists, c, n)
    requires forall k :: 0 <= k < |us| ==> 0 <= us[k] < n
    ensures L.TwoHops(lists, us).Success?
    ensures multiset(L.TwoHops(lists, us).value) == multiset(M.TwoHops(c, n, us))
  {
    if us != [] {
      var m := |us| - 1;
      TwoHopsAgree(lists, c, n, us[..m]);
      NeighborsAgree(lists, c, n, us[m]);
    }
  }

  /** The matrix's two-hop list of `p + q` is that of `p` followed by that
      of `q`. */
  lemma {:induction false} MatrixTwoHopsConcat(c: M.Cells, n: nat, p: seq<int>, q: seq<int>)
    requires M.Square(c) && n <= |c|
    requires forall k :: 0 <= k < |p| ==> 0 <= p[k] < n
    requires forall k :: 0 <= k < |q| ==> 0 <= q[k] < n
    ensures M.TwoHops(c, n, p + q) == M.TwoHops(c, n, p) + M.TwoHops(c, n, q)
  {
    if q == [] {
      assert p + q == p;
    } else {
      var m := |q| - 1;
      assert (p + q)[..|p + q| - 1] == p + q[..m];
      MatrixTwoHopsConcat(c, n, p, q[..m]);
    }
  }

  /** The entries of a two-hop list do not depend on the order of the
      vertices it starts from. */
  lemma {:induction false} MatrixTwoHopsPermutation(c: M.Cells, n: nat, us: seq<int>, vs: seq<int>)
    requires M.Square(c) && n <= |c|
    requires forall k :: 0 <= k < |us| ==> 0 <= us[k] < n
    requires multiset(us) == multiset(vs)
    ensures forall k :: 0 <= k < |vs| ==> 0 <= vs[k] < n
    ensures multiset(M.TwoHops(c, n, us)) == multiset(M.TwoHops(c, n, vs))
  {
    PermutationWithin(us, vs, n);
    if us == [] {
      assert |vs| == |multiset(vs)| == 0;
    } else {
      var m := |us| - 1;
      var i := MatchLast(us, vs);
      MatrixTwoHopsPermutation(c, n, us[..m], vs[..i] + vs[i + 1..]);
      MatrixTwoHopsWithout(c, n, vs, i);
    }
  }

  /** A permutation of vertices below `n` has its vertices below `n`. */
  lemma PermutationWithin(us: seq<int>, vs: seq<int>, n: nat)
    requires forall k :: 0 <= k < |us| ==> 0 <= us[k] < n
    requires multiset(us) == multiset(vs)
    ensures forall k :: 0 <= k < |vs| ==> 0 <= vs[k] < n
  {
    forall k | 0 <= k < |vs|
      ensures 0 <= vs[k] < n
    {
      assert vs[k] in multiset(us);
    }
  }

  /** The last vertex of `us` somewhere in its permutation `vs`; what is
      left of both is again a permutation. */
  lemma MatchLast(us: seq<int>, vs: seq<int>) returns (i: nat)
    requires us != [] && multiset(us) == multiset(vs)
    ensures i < |vs| && vs[i] == us[|us| - 1]
    ensures multiset(us[..|us| - 1]) == multiset(vs[..i] + vs[i + 1..])
  {
    var m := |us| - 1;
    assert us[m] in multiset(vs);
    i :| 0 <= i < |vs| && vs[i] == us[m];
    RemoveAt(vs, i);
    RemoveAt(us, m);
    assert us[..m] + us[m + 1..] == us[..m];
  }

  lemma RemoveAt(vs: seq<int>, i: nat)
    requires i < |vs|
    ensures multiset(vs[..i] + vs[i + 1..]) == multiset(vs) - multiset{vs[i]}
  {
    assert vs == vs[..i] + [vs[i]] + vs[i + 1..];
  }

  /** The two-hop list of `vs` has the entries of the one without `vs[i]`
      plus the row of `vs[i]`. */
  lemma MatrixTwoHopsWithout(c: M.Cells, n: nat, vs: seq<int>, i: nat)
    requires M.Square(c) && n <= |c| && i < |vs|
    requires forall k :: 0 <= k < |vs| ==> 0 <= vs[k] < n
    ensures multiset(M.TwoHops(c, n, vs)) ==
            multiset(M.TwoHops(c, n, vs[..i] + vs[i + 1..])) + multiset(Expand(c[vs[i]][..n]))
  {
    var x := vs[i];
    assert vs == vs[..i] + [x] + vs[i + 1..];
    MatrixTwoHopsConcat(c, n, vs[..i] + [x], vs[i + 1..]);
    MatrixTwoHopsConcat(c, n, vs[..i], [x]);
    MatrixTwoHopsConcat(c, n, vs[..i], vs[i + 1..]);
    assert [x][..0] == [];
  }

  /** On agreeing states, `getDistance2(v)` of a vertex gives the same
      entries from both representations. */
  lemma Distance2Agree(lists: L.Lists, c: M.Cells, n: nat, v: int)
    requires Agree(lists, c, n) && 0 <= v < n
    ensures L.Distance2(lists, v).Success? && M.Distance2(c, n, v).Success?
    ensures multiset(L.Distance2(lists, v).value) == multiset(M.Distance2(c, n, v).value)
  {
    NeighborsAgree(lists, c, n, v);
    TwoHopsAgree(lists, c, n, lists[v]);
    MatrixTwoHopsPermutation(c, n, lists[v], M.Neighbors(c, n, v).value);
  }

  /** On agreeing states, both representations have the same degree of
      every vertex, so the same degree sequence. */
  lemma DegreesAgree(lists: L.Lists, c: M.Cells, n: nat)
    requires Agree(lists, c, n)
    ensures L.Degrees(lists, n) == M.Degrees(c, n)
    ensures SortedDescending(L.Degrees(lists, n)) == SortedDescending(M.Degrees(c, n))
  {
    forall v | 0 <= v < n
      ensures L.Degrees(lists, n)[v] == M.Degrees(c, n)[v]
    {
      NeighborsAgree(lists, c, n, v);
      InNeighborsAgree(lists, c, n, v);
      assert |lists[v]| == |multiset(lists[v])|;
    }
  }

  /** After the same calls, none of them diverging, every query of a vertex
      gives the same entries from `GraphAdjList` and `GraphAdjMatrix`, and
      the degree sequences are equal. */
  lemma SameCallsSameAnswers(ops: seq<Op>, v: int)
    requires Comparable(ops)
    ensures var g := ListRun(ops); var h := MatrixRun(ops);
            && Agree(g.lists, h.cells, g.numVertices)
            && g.numVertices == h.numVertices && g.numEdges == h.numEdges
            && SortedDescending(L.Degrees(g.lists, g.numVertices)) == SortedDescending(M.Degrees(h.cells, h.numVertices))
            && (0 <= v < g.numVertices ==>
                && M.Neighbors(h.cells, h.numVertices, v).Success?
                && multiset(g.lists[v]) == multiset(M.Neighbors(h.cells, h.numVertices, v).value)
                && M.InNeighbors(h.cells, h.numVertices, v) == Success(L.InNeighbors(g.lists, v, g.numVertices))
                && L.Distance2(g.lists, v).Success? && M.Distance2(h.cells, h.numVertices, v).Success?
                && multiset(L.Distance2(g.lists, v).value) == multiset(M.Distance2(h.cells, h.numVertices, v).value))
  {
    RunsAgree(ops);
    var g := ListRun(ops);
    var h := MatrixRun(ops);
    DegreesAgree(g.lists, h.cells, g.numVertices);
    if 0 <= v < g.numVertices {
      NeighborsAgree(g.lists, h.cells, g.numVertices, v);
      InNeighborsAgree(g.lists, h.cells, g.numVertices, v);
      Distance2Agree(g.lists, h.cells, g.numVertices, v);
    }
  }

  /** The diverging call: one vertex, then an edge from it to -1. The list
      stores -1, so `getDistance2(0)` then throws; the matrix throws on the
      call and its `getDistance2(0)` is empty. */
  lemma NegativeTargetDiverges()
    ensures var ops := [AddVertex, AddEdge(0, -1)];
            && Diverging(ops[1], ListRun(ops[..1]).numVertices)
            && ListRun(ops).lists[0] == [-1]
            && L.Distance2(ListRun(ops).lists, 0) == Failure(NullPointer)
            && M.Distance2(MatrixRun(ops).cells, MatrixRun(ops).numVertices, 0) == Success([])
  {
    var ops := [AddVertex, AddEdge(0, -1)];
    assert ops[..1] == [AddVertex] && [AddVertex][..0] == [];
    var h := MatrixRun(ops);
    assert h.cells == M.Zeros(M.DefaultNumVertices);
    var row := h.cells[0][..1];
    assert row == [0];
    assert row[..0] == [];
    assert Expand(row) == [];
  }

  /** An edge from -1, by contrast, is not a diverging call: the lists drop
      it, as `adjListsMap[v]?.add` does for a missing key, and the matrix
      throws before it changes a cell, so the two still agree. */
  lemma NegativeSourceAgrees()
    ensures var ops := [AddVertex, AddEdge(-1, 0)];
            && !Diverging(ops[1], ListRun(ops[..1]).numVertices)
            && ListRun(ops).lists == ListRun(ops[..1]).lists
            && Agree(ListRun(ops).lists, MatrixRun(ops).cells, ListRun(ops).numVertices)
  {
    var ops := [AddVertex, AddEdge(-1, 0)];
    assert ops[..1] == [AddVertex] && [AddVertex][..0] == [] && ops[..0] == [];
    assert Comparable(ops);
    RunsAgree(ops);
  }
}
