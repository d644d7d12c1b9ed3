/** Intersections and roads of the routing graph (roadgraph/MapNode.kt,
    roadgraph/MapEdge.kt). */
module MapNodes {
  import opened Geography

  /** `MapEdge`: a directed road from one intersection to another. The
      Kotlin class has no `equals`, so two edges with equal fields are still
      two edges in a `HashSet`; the model keeps edge collections as
      sequences, where such duplicates stay. */
  datatype MapEdge = MapEdge(from: Point, to: Point, roadName: string, roadType: string, distance: real)

  /** A search length: a finite value, or `Double.MAX_VALUE`, which the
      searches use as "not reached yet" and which is larger than every
      length they compute. */
  datatype Extended = Finite(value: real) | Infinity
  {
    /** Strictly smaller. */
    predicate Below(other: Extended) {
      match (this, other)
      case (Finite(a), Finite(b)) => a < b
      case (Finite(_), Infinity) => true
      case (Infinity, _) => false
    }

    predicate AtMost(other: Extended) {
      !other.Below(this)
    }
  }

  /** `Below` is a strict total order and `AtMost` its reflexive closure. */
  lemma ExtendedOrder(a: Extended, b: Extended, c: Extended)
    ensures !a.Below(a)
    ensures a.Below(b) ==> !b.Below(a)
    ensures a.Below(b) && b.Below(c) ==> a.Below(c)
    ensures a.Below(b) || a == b || b.Below(a)
    ensures a.AtMost(b) <==> a.Below(b) || a == b
  {
  }

  /** `MapNode`: an intersection with the roads leaving it and the two
      lengths the searches keep on it. `edgeList` is a `HashSet` of edges
      compared by identity; the model lists the edges in the order they
      were added. */
  class MapNode {
    const location: Point
    var length: Extended
    var predictedLength: Extended
    var edgeList: seq<MapEdge>

    constructor (location: Point)
      ensures this.location == location
      ensures length == Finite(0.0) && predictedLength == Finite(0.0)
      ensures edgeList == []
    {
      this.location := location;
      length := Finite(0.0);
      predictedLength := Finite(0.0);
      edgeList := [];
    }

    /** `addEdge(newEdge)`: records one more edge. */
    method AddEdge(newEdge: MapEdge)
      modifies this`edgeList
      ensures edgeList == old(edgeList) + [newEdge]
    {
      edgeList := edgeList + [newEdge];
    }

    /** `addEdge(toLoc, roadName, roadType, distance)`: records an edge from
        this node's location. */
    method AddEdgeTo(toLoc: Point, roadName: string, roadType: string, distance: real)
      modifies this`edgeList
      ensures edgeList == old(edgeList) + [MapEdge(location, toLoc, roadName, roadType, distance)]
    {
      var newEdge := MapEdge(location, toLoc, roadName, roadType, distance);
      edgeList := edgeList + [newEdge];
    }

    /** `getNeighbors`: the end point of every edge, one entry per edge. */
    method GetNeighbors() returns (neighbors: seq<Point>)
      ensures |neighbors| == |edgeList|
      ensures forall i :: 0 <= i < |edgeList| ==> neighbors[i] == edgeList[i].to
    {
      neighbors := [];
      for i := 0 to |edgeList|
        invariant |neighbors| == i
        invariant forall k :: 0 <= k < i ==> neighbors[k] == edgeList[k].to
      {
        neighbors := neighbors + [edgeList[i].to];
      }
    }

    /** `compareTo`: orders nodes by `length`, as `Double.compareTo` does. */
    function CompareTo(other: MapNode): (r: int)
      reads this`length, other`length
      ensures r < 0 <==> length.Below(other.length)
      ensures r > 0 <==> other.length.Below(length)
      ensures r == 0 <==> length == other.length
      ensures -1 <= r <= 1
    {
      if length.Below(other.length) then -1
      else if other.length.Below(length) then 1
      else 0
    }
  }
}
