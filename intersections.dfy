/** Sorting the points of a point map into true intersections and
    pass-through points (`findIntersections` in util/GraphLoader.kt). */
module Intersections {
  import opened Geography
  import opened RoadLines
  import opened PointMaps

  /** The outgoing line of `out` runs back along `in` (same endpoints,
      swapped). Unlike `isReverse`, name and type are not compared. */
  predicate EndpointsSwapped(inLine: RoadLineInfo, outLine: RoadLineInfo) {
    inLine.point1 == outLine.point2 && inLine.point2 == outLine.point1
  }

  /** One line in, one line out, the same road name and no U-turn:
      the road continues through the point. */
  predicate OneWayPassThrough(io: InOut) {
    && |io.incoming| == 1 && |io.outgoing| == 1
    && !EndpointsSwapped(io.incoming[0], io.outgoing[0])
    && io.incoming[0].roadName == io.outgoing[0].roadName
  }

  /** Every line at the point carries the name of the first incoming line. */
  predicate AllSameName(io: InOut)
    requires |io.incoming| >= 1
  {
    forall l :: l in io.incoming + io.outgoing ==> l.roadName == io.incoming[0].roadName
  }

  /** The two incoming lines are the reverses of the two outgoing lines,
      paired straight or crossed. */
  predicate ReversePairs(io: InOut)
    requires |io.incoming| == 2 && |io.outgoing| == 2
  {
    var in1, in2, out1, out2 := io.incoming[0], io.incoming[1], io.outgoing[0], io.outgoing[1];
    (in1.IsReverse(out1) && in2.IsReverse(out2)) || (in1.IsReverse(out2) && in2.IsReverse(out1))
  }

  /** Two lines in, two lines out, one road name, and the lines in are the
      lines out in reverse: a two-way road passing through. */
  predicate TwoWayPassThrough(io: InOut) {
    |io.incoming| == 2 && |io.outgoing| == 2 && AllSameName(io) && ReversePairs(io)
  }

  /** Every point that is not one of the two pass-through shapes is an
      intersection: dead ends, branches, name changes, other degrees. */
  predicate IsIntersection(io: InOut) {
    !OneWayPassThrough(io) && !TwoWayPassThrough(io)
  }

  /** The body of the loop in `findIntersections` for one point: the two
      degree cases, the second with its two loops over the names. */
  method ClassifyPoint(io: InOut) returns (isNode: bool)
    ensures isNode <==> IsIntersection(io)
  {
    var roadsOut, roadsIn := io.outgoing, io.incoming;
    isNode := true;
    if |roadsIn| == 1 && |roadsOut| == 1 {
      if !(roadsIn[0].point1 == roadsOut[0].point2 && roadsIn[0].point2 == roadsOut[0].point1) &&
         roadsIn[0].roadName == roadsOut[0].roadName {
        isNode := false;
      }
    }
    if |roadsIn| == 2 && |roadsOut| == 2 {
      var name := roadsIn[0].roadName;
      var sameName := true;
      for k := 0 to |roadsIn|
        invariant sameName <==> forall j :: 0 <= j < k ==> roadsIn[j].roadName == name
      {
        if roadsIn[k].roadName != name {
          sameName := false;
        }
      }
      for k := 0 to |roadsOut|
        invariant sameName <==> (forall j :: 0 <= j < |roadsIn| ==> roadsIn[j].roadName == name) &&
                                (forall j :: 0 <= j < k ==> roadsOut[j].roadName == name)
      {
        if roadsOut[k].roadName != name {
          sameName := false;
        }
      }
      var in1, in2, out1, out2 := roadsIn[0], roadsIn[1], roadsOut[0], roadsOut[1];
      var passThrough := (in1.IsReverse(out1) && in2.IsReverse(out2)) ||
                         (in1.IsReverse(out2) && in2.IsReverse(out1));
      assert sameName <==> AllSameName(io) by {
        assert forall l :: l in io.incoming + io.outgoing <==> l in roadsIn || l in roadsOut;
      }
      if sameName && passThrough {
        isNode := false;
      }
    }
  }

  /** `findIntersections`: visits every key of the point map once (in no
      particular order, as a HashMap does) and lists those that are
      intersections. */
  method FindIntersections(pointMap: map<Point, InOut>) returns (intersections: seq<Point>)
    ensures forall p :: p in intersections <==> p in pointMap && IsIntersection(pointMap[p])
    ensures forall i, j :: 0 <= i < j < |intersections| ==> intersections[i] != intersections[j]
  {
    intersections := [];
    var remaining := pointMap.Keys;
    while remaining != {}
      invariant remaining <= pointMap.Keys
      invariant forall p :: p in intersections <==> p in pointMap && p !in remaining && IsIntersection(pointMap[p])
      invariant forall i, j :: 0 <= i < j < |intersections| ==> intersections[i] != intersections[j]
      decreases remaining
    {
      var pt :| pt in remaining;
      var isNode := ClassifyPoint(pointMap[pt]);
      if isNode {
        intersections := intersections + [pt];
      }
      remaining := remaining - {pt};
    }
  }

  /** A pass-through point has one or two lines out (and as many in), so
      the walk along an edge never meets the "Something went wrong" case. */
  lemma PassThroughDegree(io: InOut)
    requires !IsIntersection(io)
    ensures |io.outgoing| == |io.incoming|
    ensures |io.outgoing| == 1 || |io.outgoing| == 2
  {
  }

  /** A point touched by only one line, in one direction, is an intersection. */
  lemma DeadEndIsIntersection(io: InOut)
    requires |io.incoming| + |io.outgoing| == 1
    ensures IsIntersection(io)
  {
  }

  /** The one-in/one-out case compares endpoints only: a U-turn onto a line
      of another road type is not the `isReverse` of the line in, and yet the
      point is an intersection. */
  lemma OneWayIgnoresRoadType(a: Point, b: Point, name: string, t1: string, t2: string)
    requires t1 != t2
    ensures !RoadLineInfo(a, b, name, t1).IsReverse(RoadLineInfo(b, a, name, t2))
    ensures IsIntersection(InOut([RoadLineInfo(b, a, name, t2)], [RoadLineInfo(a, b, name, t1)]))
  {
  }
}
