/** basicgraph/GraphAdjMatrix.kt: a graph stored as a square matrix of edge
    counts, `adjMatrix[v][w]` being the number of edges from `v` to `w`,
    that doubles its dimension when a vertex no longer fits. */
module AdjacencyMatrices {
  import opened Wrappers
  import opened BasicGraphs

  /** The matrix as values: row `i`, column `j`. */
  type Cells = seq<seq<nat>>

  ghost predicate Square(c: Cells) {
    forall i :: 0 <= i < |c| ==> |c[i]| == |c|
  }

  /** Every cell outside the top-left `n` by `n` block is zero. */
  ghost predicate Blank(c: Cells, n: nat)
    requires Square(c)
  {
    forall i, j :: 0 <= i < |c| && 0 <= j < |c| && (i >= n || j >= n) ==> c[i][j] == 0
  }

  /** `defaultNumVertices`: the 5 by 5 matrix of zeros a new graph starts with. */
  const DefaultNumVertices: nat := 5

  function Zeros(k: nat): (r: Cells)
    ensures |r| == k && Square(r) && Blank(r, 0)
  {
    seq(k, _ => seq(k, _ => 0))
  }

  /** What `implementAddVertex` does to the matrix for new vertex `v`: when
      `v` is no longer an index, a `2v` by `2v` matrix holding the old cells
      at their places and zeros elsewhere; otherwise the matrix as it was. */
  function Grown(c: Cells, v: nat): (r: Cells)
    requires Square(c)
    ensures Square(r)
    ensures v < |c| ==> r == c
    ensures v >= |c| ==> |r| == 2 * v
    ensures forall i, j :: 0 <= i < |r| && 0 <= j < |r| ==> r[i][j] == if i < |c| && j < |c| then c[i][j] else 0
  {
    if v >= |c| then
      seq(2 * v, i requires 0 <= i < 2 * v => seq(2 * v, j requires 0 <= j < 2 * v => if i < |c| && j < |c| then c[i][j] else 0))
    else c
  }

  /** Growing keeps a dimension above the old vertex count and keeps the
      cells outside the vertex block zero once the new vertex is counted. */
  lemma GrownRoom(c: Cells, n: nat)
    requires Square(c) && 0 < |c| && n <= |c| && Blank(c, n)
    ensures n + 1 <= |Grown(c, n)| && Blank(Grown(c, n), n + 1)
  {
  }

  /** What `implementAddEdge` does to the matrix: one more edge from `v` to
      `w`. */
  function Incremented(c: Cells, v: int, w: int): (r: Cells)
    requires Square(c) && 0 <= v < |c| && 0 <= w < |c|
    ensures Square(r) && |r| == |c|
    ensures forall i, j :: 0 <= i < |c| && 0 <= j < |c| ==> r[i][j] == if i == v && j == w then c[i][j] + 1 else c[i][j]
  {
    c[v := c[v][w := c[v][w] + 1]]
  }

  /** Column `v` of the first `n` rows. */
  function Column(c: Cells, v: int, n: nat): (r: seq<nat>)
    requires Square(c) && n <= |c| && 0 <= v < |c|
    ensures |r| == n && forall i :: 0 <= i < n ==> r[i] == c[i][v]
  {
    seq(n, i requires 0 <= i < n => c[i][v])
  }

  /** What `getNeighbors(v)` returns for `n` vertices: each `i < n`, in
      ascending order, `c[v][i]` times. No row is read when `n` is 0; a `v`
      outside the matrix throws otherwise. */
  function Neighbors(c: Cells, n: nat, v: int): Result<seq<int>>
    requires Square(c) && n <= |c|
  {
    if n == 0 then Success([])
    else if 0 <= v < |c| then Success(Expand(c[v][..n]))
    else Failure(IndexOutOfBounds)
  }

  /** What `getInNeighbors(v)` returns: each `i < n`, in ascending order,
      `c[i][v]` times. */
  function InNeighbors(c: Cells, n: nat, v: int): Result<seq<int>>
    requires Square(c) && n <= |c|
  {
    if n == 0 then Success([])
    else if 0 <= v < |c| then Success(Expand(Column(c, v, n)))
    else Failure(IndexOutOfBounds)
  }

  /** `getNeighbors(v)` lists `i` exactly `c[v][i]` times, for `i < n`, and
      on a row past the vertex block finds no edges. */
  lemma NeighborsCount(c: Cells, n: nat, v: int, i: int)
    requires Square(c) && 0 < n <= |c| && 0 <= v < |c|
    ensures multiset(Neighbors(c, n, v).value)[i] == if 0 <= i < n then c[v][i] else 0
    ensures Blank(c, n) && v >= n ==> Neighbors(c, n, v) == Success([])
  {
    ExpandCount(c[v][..n], i);
    if Blank(c, n) && v >= n {
      var row := c[v][..n];
      assert forall k :: 0 <= k < |row| ==> row[k] == 0;
      ZeroCountsExpandEmpty(row);
    }
  }

  /** `getInNeighbors(v)` lists `i` exactly `c[i][v]` times, for `i < n`. */
  lemma InNeighborsCount(c: Cells, n: nat, v: int, i: int)
    requires Square(c) && 0 < n <= |c| && 0 <= v < |c|
    ensures multiset(InNeighbors(c, n, v).value)[i] == if 0 <= i < n then c[i][v] else 0
  {
    ExpandCount(Column(c, v, n), i);
  }

  lemma {:induction false} ZeroCountsExpandEmpty(counts: seq<nat>)
    requires forall k :: 0 <= k < |counts| ==> counts[k] == 0
    ensures Expand(counts) == []
  {
    if counts != [] {
      ZeroCountsExpandEmpty(counts[..|counts| - 1]);
    }
  }

  /** The rows `u < n` of the vertices `us`, expanded, one after another. */
  function TwoHops(c: Cells, n: nat, us: seq<int>): seq<int>
    requires Square(c) && n <= |c|
    requires forall k :: 0 <= k < |us| ==> 0 <= us[k] < n
  {
    if us == [] then []
    else
      var m := |us| - 1;
      TwoHops(c, n, us[..m]) + Expand(c[us[m]][..n])
  }

  /** What `getDistance2(v)` returns. */
  function Distance2(c: Cells, n: nat, v: int): Result<seq<int>>
    requires Square(c) && n <= |c|
  {
    if n == 0 then Success([])
    else if 0 <= v < |c| then
      ExpandAscending(c[v][..n]);
      Success(TwoHops(c, n, Expand(c[v][..n])))
    else Failure(IndexOutOfBounds)
  }

  /** The degree of each vertex below `n`: the sum of its column plus the
      sum of its row, as list lengths. */
  function Degrees(c: Cells, n: nat): (r: seq<int>)
    requires Square(c) && n <= |c|
    ensures |r| == n
  {
    seq(n, v requires 0 <= v < n => |Expand(Column(c, v, n))| + |Expand(c[v][..n])|)
  }

  /** `GraphAdjMatrix`: the base counters and labels plus the matrix. */
  class GraphAdjMatrix {
    const base: Graph
    var adjMatrix: array2<nat>
    /** The matrix's cells as values. */
    ghost var cells: Cells

    /** `adjMatrix` holds `cells`. */
    ghost predicate Holds()
      reads this, adjMatrix
    {
      && Square(cells)
      && adjMatrix.Length0 == |cells| && adjMatrix.Length1 == |cells|
      && forall i, j :: 0 <= i < |cells| && 0 <= j < |cells| ==> adjMatrix[i, j] == cells[i][j]
    }

    /** The matrix is square, at least its default size, at least as large
        as the vertex count, and edge-free outside the vertex block. */
    ghost predicate Valid()
      reads this, adjMatrix, base
    {
      Holds() && DefaultNumVertices <= |cells| && base.numVertices <= |cells| && Blank(cells, base.numVertices)
    }

    constructor ()
      ensures Valid() && fresh(base) && fresh(adjMatrix)
      ensures base.numVertices == 0 && base.numEdges == 0 && base.vertexLabels == None
      ensures cells == Zeros(DefaultNumVertices)
    {
      base := new Graph();
      adjMatrix := new nat[DefaultNumVertices, DefaultNumVertices]((i, j) => 0);
      cells := Zeros(DefaultNumVertices);
    }

    /** `implementAddVertex`: for new vertex `v`, when `v` is no longer an
        index, a `2v` by `2v` matrix into which every old cell is copied. */
    method ImplementAddVertex()
      requires Holds()
      modifies this`adjMatrix, this`cells
      ensures Holds()
      ensures cells == Grown(old(cells), base.numVertices)
      ensures adjMatrix == old(adjMatrix) || fresh(adjMatrix)
    {
      var v := base.numVertices;
      if v >= adjMatrix.Length0 {
        var size := adjMatrix.Length0;
        var newAdjMatrix := new nat[v * 2, v * 2]((i, j) => 0);
        for i := 0 to size
          modifies newAdjMatrix
          invariant forall a, b :: 0 <= a < 2 * v && 0 <= b < 2 * v ==>
            newAdjMatrix[a, b] == if a < i && b < size then cells[a][b] else 0
        {
          for j := 0 to size
            modifies newAdjMatrix
            invariant forall a, b :: 0 <= a < 2 * v && 0 <= b < 2 * v ==>
              newAdjMatrix[a, b] == if (a < i && b < size) || (a == i && b < j) then cells[a][b] else 0
          {
            newAdjMatrix[i, j] := adjMatrix[i, j];
          }
        }
        adjMatrix := newAdjMatrix;
        cells := Grown(cells, v);
      }
    }

    /** `implementAddEdge`: `adjMatrix[v][w] += 1`, which throws when either
        index is outside the matrix. */
    method ImplementAddEdge(v: int, w: int) returns (outcome: Outcome)
      requires Holds()
      modifies adjMatrix, this`cells
      ensures Holds()
      ensures outcome.Pass? <==> 0 <= v < |old(cells)| && 0 <= w < |old(cells)|
      ensures outcome.Fail? ==> outcome.error == IndexOutOfBounds
      ensures cells == if outcome.Pass? then Incremented(old(cells), v, w) else old(cells)
    {
      if 0 <= v < adjMatrix.Length0 && 0 <= w < adjMatrix.Length1 {
        adjMatrix[v, w] := adjMatrix[v, w] + 1;
        cells := Incremented(cells, v, w);
        outcome := Pass;
      } else {
        outcome := Fail(IndexOutOfBounds);
      }
    }

    /** `addVertex`: the new vertex is the next index; the matrix grows when
        it does not fit, so it always has room for every vertex. */
    method AddVertex() returns (index: int)
      requires Valid()
      modifies this`adjMatrix, this`cells, base`numVertices
      ensures Valid()
      ensures index == old(base.numVertices) && base.numVertices == index + 1
      ensures cells == Grown(old(cells), index)
    {
      GrownRoom(cells, base.numVertices);
      ImplementAddVertex();
      index := base.AddVertex();
    }

    /** `addEdge`: counts the edge, then throws for an index at or above the
        vertex count, and also, from the matrix access, for a negative one;
        otherwise one more edge from `v` to `w`. */
    method AddEdge(v: int, w: int) returns (outcome: Outcome)
      requires Valid()
      modifies adjMatrix, this`cells, base`numEdges
      ensures Valid()
      ensures base.numEdges == old(base.numEdges) + 1
      ensures outcome.Pass? <==> 0 <= v < base.numVertices && 0 <= w < base.numVertices
      ensures outcome.Fail? ==> outcome.error == IndexOutOfBounds
      ensures cells == if outcome.Pass? then Incremented(old(cells), v, w) else old(cells)
    {
      outcome := base.AddEdge(v, w);
      if outcome.Pass? {
        outcome := ImplementAddEdge(v, w);
      }
    }

    /** `getNeighbors`: for each `i` below the vertex count, `i` once for
        every edge from `v` to `i`. */
    method GetNeighbors(v: int) returns (r: Result<seq<int>>)
      requires Valid()
      ensures r == Neighbors(cells, base.numVertices, v)
    {
      var n := base.numVertices;
      if n == 0 {
        return Success([]);
      }
      if !(0 <= v < adjMatrix.Length0) {
        return Failure(IndexOutOfBounds);
      }
      ghost var row := cells[v][..n];
      var neighbors := [];
      for i := 0 to n
        invariant neighbors == Expand(row[..i])
      {
        for j := 0 to adjMatrix[v, i]
          invariant neighbors == Expand(row[..i]) + Repeat(i, j)
        {
          neighbors := neighbors + [i];
        }
        ExpandSnoc(row, i);
      }
      assert row[..n] == row;
      r := Success(neighbors);
    }

    /** `getInNeighbors`: for each `i` below the vertex count, `i` once for
        every edge from `i` to `v`. */
    method GetInNeighbors(v: int) returns (r: Result<seq<int>>)
      requires Valid()
      ensures r == InNeighbors(cells, base.numVertices, v)
    {
      var n := base.numVertices;
      if n == 0 {
        return Success([]);
      }
      if !(0 <= v < adjMatrix.Length1) {
        return Failure(IndexOutOfBounds);
      }
      ghost var column := Column(cells, v, n);
      var inNeighbors := [];
      for i := 0 to n
        invariant inNeighbors == Expand(column[..i])
      {
        for j := 0 to adjMatrix[i, v]
          invariant inNeighbors == Expand(column[..i]) + Repeat(i, j)
        {
          inNeighbors := inNeighbors + [i];
        }
        ExpandSnoc(column, i);
      }
      assert column[..n] == column;
      r := Success(inNeighbors);
    }

    /** `getDistance2`: the neighbours of the neighbours of `v`, one after
        another, duplicates kept. */
    method GetDistance2(v: int) returns (r: Result<seq<int>>)
      requires Valid()
      ensures r == Distance2(cells, base.numVertices, v)
    {
      var neighbors := GetNeighbors(v);
      if neighbors.Failure? {
        return neighbors;
      }
      var n := base.numVertices;
      var us := neighbors.value;
      if n > 0 {
        ExpandAscending(cells[v][..n]);
      }
      var twoHops := [];
      for i := 0 to |us|
        invariant twoHops == TwoHops(cells, n, us[..i])
      {
        assert us[..i + 1][..i] == us[..i];
        var hop := GetNeighbors(us[i]);
        twoHops := twoHops + hop.value;
      }
      assert us[..|us|] == us;
      r := Success(twoHops);
    }

    /** `degreeSequence`: in-degree plus out-degree of every vertex, largest
        first. */
    method DegreeSequence() returns (degrees: seq<int>)
      requires Valid()
      ensures degrees == SortedDescending(Degrees(cells, base.numVertices))
      ensures |degrees| == base.numVertices && NonIncreasing(degrees)
      ensures multiset(degrees) == multiset(Degrees(cells, base.numVertices))
    {
      var n := base.numVertices;
      var degreeSeq := [];
      for v := 0 to n
        invariant |degreeSeq| == v
        invariant forall u :: 0 <= u < v ==> degreeSeq[u] == Degrees(cells, n)[u]
      {
        var ins := GetInNeighbors(v);
        var outs := GetNeighbors(v);
        degreeSeq := degreeSeq + [|ins.value| + |outs.value|];
      }
      assert degreeSeq == Degrees(cells, n);
      degrees := SortedDescending(degreeSeq);
    }
  }
}
