/** `RoadLineInfo`, one directed input record of the road loader
    (util/GraphLoader.kt, bottom of the file). */
module RoadLines {
  import opened Wrappers
  import opened Geography

  /** A one-way line from point1 to point2. Its `equals` compares all four
      fields, which is the structural equality of a Dafny datatype. */
  datatype RoadLineInfo = RoadLineInfo(point1: Point, point2: Point, roadName: string, roadType: string)
  {
    /** `getOtherPoint`: the opposite endpoint, IllegalArgumentException for
        a point that is not an endpoint. */
    function GetOtherPoint(pt: Point): (r: Result<Point>)
      ensures r.Failure? <==> pt != point1 && pt != point2
      ensures r.Failure? ==> r.error == IllegalArgument
      ensures r.Success? ==> {pt, r.value} == {point1, point2}
    {
      if pt == point1 then Success(point2)
      else if pt == point2 then Success(point1)
      else Failure(IllegalArgument)
    }

    /** `sameRoad`: equal name and type. */
    predicate SameRoad(info: RoadLineInfo) {
      info.roadName == roadName && info.roadType == roadType
    }

    /** `getReverseCopy`: the same road in the opposite direction. */
    function GetReverseCopy(): (r: RoadLineInfo)
      ensures r.point1 == point2 && r.point2 == point1 && SameRoad(r)
    {
      RoadLineInfo(point2, point1, roadName, roadType)
    }

    /** `isReverse`: `other` runs between the same points the other way on
        the same road (name and type). */
    predicate IsReverse(other: RoadLineInfo) {
      && point1 == other.point2
      && point2 == other.point1
      && roadName == other.roadName
      && roadType == other.roadType
    }

    /** `hashCode`: the wrapped sum of the endpoint hashes. */
    function HashCode(pointHash: Point -> int): (r: int)
      ensures -0x8000_0000 <= r < 0x8000_0000
    {
      Wrap32(pointHash(point1) + pointHash(point2))
    }
  }

  /** `isReverse` is symmetric. */
  lemma IsReverseSymmetric(a: RoadLineInfo, b: RoadLineInfo)
    ensures a.IsReverse(b) <==> b.IsReverse(a)
  {
  }

  /** A line is the reverse of exactly one line: its reverse copy. */
  lemma IsReverseCharacterisation(a: RoadLineInfo, b: RoadLineInfo)
    ensures a.GetReverseCopy().IsReverse(a)
    ensures a.IsReverse(b) <==> b == a.GetReverseCopy()
    ensures a.GetReverseCopy().GetReverseCopy() == a
  {
  }

  /** Asking for the other end of the other end gives the point back. */
  lemma GetOtherPointInvolution(info: RoadLineInfo, pt: Point)
    requires pt == info.point1 || pt == info.point2
    ensures info.GetOtherPoint(pt).Success?
    ensures info.GetOtherPoint(info.GetOtherPoint(pt).value) == Success(pt)
  {
  }
}
