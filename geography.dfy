/** Geometry primitives: `GeographicPoint` and `RoadSegment`
    (geography/GeographicPoint.kt, geography/RoadSegment.kt). */
module Geography {
  import opened Wrappers

  /** A latitude/longitude pair with structural equality (a Kotlin data class). */
  datatype Point = Point(latitude: real, longitude: real)

  ghost predicate NonNegative(f: (Point, Point) -> real) {
    forall p, q :: f(p, q) >= 0.0
  }

  /** The great-circle distance `GeographicPoint.distance`. Only its
      non-negativity is used, so every operation that needs it takes it as a
      parameter of this type. */
  type Distance = f: (Point, Point) -> real | NonNegative(f) witness (p: Point, q: Point) => 0.0

  /** The length of the polyline through `ps`: the sum of `dist` over
      consecutive pairs. */
  function PolylineLength(dist: Distance, ps: seq<Point>): (r: real)
    ensures r >= 0.0
    ensures |ps| == 2 ==> r == dist(ps[0], ps[1])
  {
    if |ps| < 2 then 0.0 else dist(ps[0], ps[1]) + PolylineLength(dist, ps[1..])
  }

  /** Extending a polyline by one point adds the distance of the last hop. */
  lemma {:induction false} PolylineLengthSnoc(dist: Distance, ps: seq<Point>, q: Point)
    requires |ps| >= 1
    ensures PolylineLength(dist, ps + [q]) == PolylineLength(dist, ps) + dist(ps[|ps| - 1], q)
  {
    if |ps| > 1 {
      assert (ps + [q])[1..] == ps[1..] + [q];
      PolylineLengthSnoc(dist, ps[1..], q);
    }
  }

  /** Int arithmetic of the JVM: the two's-complement value of `x` modulo 2^32. */
  function Wrap32(x: int): (r: int)
    ensures -0x8000_0000 <= r < 0x8000_0000
    ensures (r - x) % 0x1_0000_0000 == 0
  {
    (x + 0x8000_0000) % 0x1_0000_0000 - 0x8000_0000
  }

  /** A road piece between two intersections with the shape points between them. */
  datatype RoadSegment = RoadSegment(
    point1: Point,
    point2: Point,
    geometryPoints: seq<Point>,
    roadName: string,
    roadType: string,
    length: real)
  {
    /** All points of the segment in stored order, from point1 to point2. */
    function Forward(): (r: seq<Point>)
      ensures |r| == |geometryPoints| + 2
      ensures r[0] == point1 && r[|r| - 1] == point2
      ensures r[1..|r| - 1] == geometryPoints
    {
      [point1] + geometryPoints + [point2]
    }

    /** `getPoints(start, end)`: the points from `start` to `end` in that
        order, or IllegalArgumentException when (start, end) is not the pair
        of endpoints in either order. The reversed case builds the list
        end-first and reverses it in place, as the Kotlin code does. */
    method GetPoints(start: Point, end: Point) returns (r: Result<seq<Point>>)
      ensures r.Failure? <==> !((start == point1 && end == point2) || (start == point2 && end == point1))
      ensures r.Failure? ==> r.error == IllegalArgument
      ensures r.Success? ==> |r.value| == |geometryPoints| + 2
      ensures r.Success? ==> r.value[0] == start && r.value[|r.value| - 1] == end
      ensures start == point1 && end == point2 ==> r == Success(Forward())
      ensures !(start == point1 && end == point2) && start == point2 && end == point1 ==>
                r == Success(Reversed(Forward()))
    {
      if point1 == start && point2 == end {
        var allPoints := [start] + geometryPoints + [end];
        r := Success(allPoints);
      } else if point2 == start && point1 == end {
        var allPoints := [end] + geometryPoints + [start];
        var a := new Point[|allPoints|](k requires 0 <= k < |allPoints| => allPoints[k]);
        assert a[..] == allPoints;
        ReverseInPlace(a);
        r := Success(a[..]);
      } else {
        r := Failure(IllegalArgument);
      }
    }

    /** `equals`: same road name, same length and the same endpoints in
        either order; road type and geometry do not take part. */
    predicate Equals(other: RoadSegment) {
      && roadName == other.roadName
      && ((point1 == other.point1 && point2 == other.point2) ||
          (point1 == other.point2 && point2 == other.point1))
      && length == other.length
    }

    /** `hashCode`: the wrapped sum of the endpoint hashes, given the hash
        of a point as `pointHash`. */
    function HashCode(pointHash: Point -> int): (r: int)
      ensures -0x8000_0000 <= r < 0x8000_0000
    {
      Wrap32(pointHash(point1) + pointHash(point2))
    }

    /** `getOtherPoint`: given one end, the other; None for any other point. */
    function GetOtherPoint(point: Point): (r: Option<Point>)
      ensures r.Some? <==> point == point1 || point == point2
      ensures r.Some? ==> {point, r.value} == {point1, point2}
    {
      if point == point1 then Some(point2)
      else if point == point2 then Some(point1)
      else None
    }
  }

  /** `Reversed(Forward())`, what `getPoints(point2, point1)` returns when
      the endpoints differ (with equal endpoints that call takes the forward
      branch), lists the same points in the opposite order: it runs from
      point2 through the geometry backwards to point1, and reversing it
      again gives the forward list. */
  lemma GetPointsBackwardIsReverse(seg: RoadSegment)
    ensures Reversed(Reversed(seg.Forward())) == seg.Forward()
    ensures Reversed(seg.Forward())[0] == seg.point2
    ensures Reversed(seg.Forward())[|seg.geometryPoints| + 1] == seg.point1
    ensures Reversed(seg.Forward())[1..|seg.geometryPoints| + 1] == Reversed(seg.geometryPoints)
  {
    ReversedInvolution(seg.Forward());
  }

  /** `equals` is an equivalence relation. */
  lemma EqualsIsEquivalence(a: RoadSegment, b: RoadSegment, c: RoadSegment)
    ensures a.Equals(a)
    ensures a.Equals(b) ==> b.Equals(a)
    ensures a.Equals(b) && b.Equals(c) ==> a.Equals(c)
  {
  }

  /** `equals` ignores direction, road type and geometry. */
  lemma EqualsIgnoresDirectionTypeAndGeometry(a: RoadSegment, t: string, g: seq<Point>)
    ensures a.Equals(RoadSegment(a.point2, a.point1, g, a.roadName, t, a.length))
  {
  }

  /** `hashCode` is consistent with `equals`: equal segments hash alike. */
  lemma HashCodeConsistent(a: RoadSegment, b: RoadSegment, pointHash: Point -> int)
    requires a.Equals(b)
    ensures a.HashCode(pointHash) == b.HashCode(pointHash)
  {
  }

  /** Asking twice for the other end gives back the point asked about. */
  lemma GetOtherPointInvolution(seg: RoadSegment, p: Point)
    requires p == seg.point1 || p == seg.point2
    ensures seg.GetOtherPoint(p).Some?
    ensures seg.GetOtherPoint(seg.GetOtherPoint(p).value) == Some(p)
  {
  }
}
