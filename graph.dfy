/** The state every teaching graph of basicgraph/Graph.kt shares: the vertex
    and edge counters, the optional vertex labels, and the descending sort
    that turns a list of degrees into a degree sequence. The two concrete
    representations (adjacency lists and an adjacency matrix) hold a `Graph`
    for this state and add their own storage. */
module BasicGraphs {
  import opened Wrappers

  /** A sequence sorted from largest to smallest. */
  predicate NonIncreasing(s: seq<int>) {
    forall i, j :: 0 <= i < j < |s| ==> s[i] >= s[j]
  }

  /** `x` placed into the non-increasing `s` before the first element
      smaller than it. */
  function Insert(x: int, s: seq<int>): (r: seq<int>)
    requires NonIncreasing(s)
    ensures NonIncreasing(r)
    ensures multiset(r) == multiset(s) + multiset{x}
  {
    if s == [] || x >= s[0] then [x] + s
    else
      TailNonIncreasing(s);
      var rest := Insert(x, s[1..]);
      InsertBehindHead(x, s, rest);
      [s[0]] + rest
  }

  /** `x` placed in the tail of `s` stays behind the head of `s`. */
  lemma InsertBehindHead(x: int, s: seq<int>, rest: seq<int>)
    requires NonIncreasing(s) && s != [] && x < s[0]
    requires NonIncreasing(rest) && multiset(rest) == multiset(s[1..]) + multiset{x}
    ensures NonIncreasing([s[0]] + rest)
    ensures multiset([s[0]] + rest) == multiset(s) + multiset{x}
  {
    assert s == [s[0]] + s[1..];
    forall i | 0 <= i < |rest|
      ensures rest[i] <= s[0]
    {
      assert rest[i] in multiset(s[1..]) + multiset{x};
    }
  }

  /** `sortedDescending()`: the elements of `s` from largest to smallest. */
  function SortedDescending(s: seq<int>): (r: seq<int>)
    ensures NonIncreasing(r)
    ensures multiset(r) == multiset(s)
    ensures |r| == |s|
  {
    if s == [] then []
    else
      assert s == [s[0]] + s[1..];
      Insert(s[0], SortedDescending(s[1..]))
  }

  /** There is only one non-increasing arrangement of a multiset, so
      `SortedDescending` gives what any correct descending sort gives. */
  lemma {:induction false} SortedUnique(a: seq<int>, b: seq<int>)
    requires NonIncreasing(a) && NonIncreasing(b) && multiset(a) == multiset(b)
    ensures a == b
  {
    if a != [] {
      SortedHeadsEqual(a, b);
      MultisetTail(a);
      MultisetTail(b);
      TailNonIncreasing(a);
      TailNonIncreasing(b);
      SortedUnique(a[1..], b[1..]);
      assert a == [a[0]] + a[1..] && b == [b[0]] + b[1..];
    } else {
      assert |b| == |multiset(b)| == 0;
    }
  }

  /** Both arrangements start with the largest element. */
  lemma SortedHeadsEqual(a: seq<int>, b: seq<int>)
    requires NonIncreasing(a) && NonIncreasing(b) && multiset(a) == multiset(b) && a != []
    ensures b != [] && a[0] == b[0]
  {
    assert a[0] in multiset(b);
    var i :| 0 <= i < |b| && b[i] == a[0];
    assert b[0] in multiset(a);
    var j :| 0 <= j < |a| && a[j] == b[0];
    assert b[0] >= a[0] by {
      if i > 0 {
        assert b[0] >= b[i];
      }
    }
    assert a[0] >= b[0] by {
      if j > 0 {
        assert a[0] >= a[j];
      }
    }
  }

  lemma MultisetTail(s: seq<int>)
    requires s != []
    ensures multiset(s[1..]) == multiset(s) - multiset{s[0]}
  {
    assert s == [s[0]] + s[1..];
  }

  lemma TailNonIncreasing(s: seq<int>)
    requires NonIncreasing(s) && s != []
    ensures NonIncreasing(s[1..])
  {
    forall i, j | 0 <= i < j < |s| - 1
      ensures s[1..][i] >= s[1..][j]
    {
      assert s[1..][i] == s[i + 1] && s[1..][j] == s[j + 1];
    }
  }

  /** `k` copies of `x`. */
  function Repeat(x: int, k: nat): (r: seq<int>)
    ensures |r| == k
  {
    if k == 0 then [] else Repeat(x, k - 1) + [x]
  }

  lemma {:induction false} RepeatCount(x: int, k: nat, y: int)
    ensures multiset(Repeat(x, k))[y] == if y == x then k else 0
    ensures y in Repeat(x, k) <==> y == x && k > 0
  {
    if k > 0 {
      RepeatCount(x, k - 1, y);
    }
  }

  /** Every index `i` of `counts`, in ascending order, listed `counts[i]`
      times: how both representations turn per-vertex edge counts into a
      neighbour list. */
  function Expand(counts: seq<nat>): seq<int> {
    if counts == [] then []
    else
      var m := |counts| - 1;
      Expand(counts[..m]) + Repeat(m, counts[m])
  }

  /** `Expand` lists index `x` exactly `counts[x]` times, and nothing that
      is not an index. */
  lemma {:induction false} ExpandCount(counts: seq<nat>, x: int)
    ensures multiset(Expand(counts))[x] == if 0 <= x < |counts| then counts[x] else 0
  {
    if counts != [] {
      var m := |counts| - 1;
      ExpandCount(counts[..m], x);
      RepeatCount(m, counts[m], x);
    }
  }

  /** The entries of `Expand(counts)` are indices of `counts`, in
      ascending order. */
  lemma {:induction false} ExpandAscending(counts: seq<nat>)
    ensures forall k :: 0 <= k < |Expand(counts)| ==> 0 <= Expand(counts)[k] < |counts|
    ensures forall i, j :: 0 <= i < j < |Expand(counts)| ==> Expand(counts)[i] <= Expand(counts)[j]
  {
    if counts != [] {
      var m := |counts| - 1;
      ExpandAscending(counts[..m]);
      var tail := Repeat(m, counts[m]);
      forall k | 0 <= k < |tail|
        ensures tail[k] == m
      {
        RepeatCount(m, counts[m], tail[k]);
      }
    }
  }

  /** One more count adds its index at the end. */
  lemma ExpandSnoc(counts: seq<nat>, i: nat)
    requires i < |counts|
    ensures Expand(counts[..i + 1]) == Expand(counts[..i]) + Repeat(i, counts[i])
  {
    assert counts[..i + 1][..i] == counts[..i];
  }

  /** `Graph`: the counters and labels kept by the abstract base class. A
      representation calls `AddVertex` and `AddEdge` here for the counting
      half of its own `addVertex` and `addEdge`. */
  class Graph {
    var numVertices: nat
    var numEdges: nat
    var vertexLabels: Option<map<int, string>>

    /** A new graph has no vertices, no edges and no label map. */
    constructor ()
      ensures numVertices == 0 && numEdges == 0 && vertexLabels == None
    {
      numVertices := 0;
      numEdges := 0;
      vertexLabels := None;
    }

    /** The counting half of `addVertex`: the new vertex gets the next free
        index, which is the number of vertices before the call. */
    method AddVertex() returns (index: int)
      modifies this`numVertices
      ensures numVertices == old(numVertices) + 1
      ensures index == old(numVertices) && HasVertex(index)
    {
      numVertices := numVertices + 1;
      index := numVertices - 1;
    }

    /** Whether `addEdge(v, w)` reaches the representation: both indices
        below the vertex count (a negative index passes this test). */
    predicate InRange(v: int, w: int)
      reads this`numVertices
    {
      v < numVertices && w < numVertices
    }

    /** The counting half of `addEdge`: the edge counter grows first, so it
        grows even when the indices are out of range and the call throws. */
    method AddEdge(v: int, w: int) returns (outcome: Outcome)
      modifies this`numEdges
      ensures numEdges == old(numEdges) + 1
      ensures outcome.Pass? <==> InRange(v, w)
      ensures outcome.Fail? ==> outcome.error == IndexOutOfBounds
    {
      numEdges := numEdges + 1;
      if v < numVertices && w < numVertices {
        outcome := Pass;
      } else {
        outcome := Fail(IndexOutOfBounds);
      }
    }

    /** `initializeLabels`: an empty label map replaces whatever was there. */
    method InitializeLabels()
      modifies this`vertexLabels
      ensures vertexLabels == Some(map[])
    {
      vertexLabels := Some(map[]);
    }

    /** `hasVertex(v: Int)`: every index below the count, negative ones
        included. */
    predicate HasVertex(v: int)
      reads this`numVertices
    {
      v < numVertices
    }

    /** `hasVertex(s: String)`: some vertex carries label `s`; false while
        there is no label map. */
    predicate HasLabel(s: string)
      reads this`vertexLabels
    {
      vertexLabels.Some? && exists v :: v in vertexLabels.value && vertexLabels.value[v] == s
    }

    /** `getLabel`: the label of `v`, or null when there is none or no label
        map. */
    function GetLabel(v: int): (r: Option<string>)
      reads this`vertexLabels
      ensures r.Some? ==> vertexLabels.Some? && v in vertexLabels.value && HasLabel(r.value)
      ensures r.None? <==> vertexLabels.None? || v !in vertexLabels.value
    {
      if vertexLabels.Some? && v in vertexLabels.value then Some(vertexLabels.value[v]) else None
    }

    /** `addLabel`: labels `v` only when it is in range and not labelled yet;
        otherwise (and always while there is no label map) nothing changes. */
    method AddLabel(v: int, s: string)
      modifies this`vertexLabels
      ensures old(vertexLabels).Some? && HasVertex(v) && v !in old(vertexLabels).value ==>
                vertexLabels == Some(old(vertexLabels).value[v := s]) && GetLabel(v) == Some(s)
      ensures !(old(vertexLabels).Some? && HasVertex(v) && v !in old(vertexLabels).value) ==>
                vertexLabels == old(vertexLabels)
    {
      if v < numVertices && !(vertexLabels.Some? && v in vertexLabels.value) {
        if vertexLabels.Some? {
          vertexLabels := Some(vertexLabels.value[v := s]);
        }
      }
    }

    /** `getIndex`: scans the label map for an entry labelled `s` and returns
        its key, or null when no vertex has that label; a missing label map
        throws (`!!`). The program's `LinkedHashMap` is scanned in insertion
        order; the model scans the keys in any order, so with repeated labels
        any matching key may come back. */
    method GetIndex(s: string) returns (r: Result<Option<int>>)
      ensures r.Failure? <==> vertexLabels.None?
      ensures r.Failure? ==> r.error == NullPointer
      ensures r.Success? ==> (r.value.Some? <==> HasLabel(s))
      ensures r.Success? && r.value.Some? ==> GetLabel(r.value.value) == Some(s)
    {
      if vertexLabels.None? {
        return Failure(NullPointer);
      }
      var labels := vertexLabels.value;
      var remaining := labels.Keys;
      while remaining != {}
        invariant remaining <= labels.Keys
        invariant forall k :: k in labels && k !in remaining ==> labels[k] != s
        decreases |remaining|
      {
        ghost var some := SomeElement(remaining);  // some key is left to scan
        var key :| key in remaining;
        if labels[key] == s {
          return Success(Some(key));
        }
        remaining := remaining - {key};
      }
      return Success(None);
    }
  }
}
