/** The loader's intermediate point map: for every point that ends some
    input line, the lines leaving it and the lines arriving at it
    (`buildPointMapOneWay` and `addToPointsMapOneWay` in util/GraphLoader.kt). */
module PointMaps {
  import opened Geography
  import opened RoadLines

  /** The two lists kept per point: `[0]` outgoing lines, `[1]` incoming lines. */
  datatype InOut = InOut(outgoing: seq<RoadLineInfo>, incoming: seq<RoadLineInfo>)

  function Out(m: map<Point, InOut>, p: Point): seq<RoadLineInfo> {
    if p in m then m[p].outgoing else []
  }

  function In(m: map<Point, InOut>, p: Point): seq<RoadLineInfo> {
    if p in m then m[p].incoming else []
  }

  /** The lines of `lines` that leave `p`, in input order. */
  function LinesFrom(lines: seq<RoadLineInfo>, p: Point): (r: seq<RoadLineInfo>)
    ensures forall l :: l in r <==> l in lines && l.point1 == p
  {
    if lines == [] then []
    else LinesFrom(lines[..|lines| - 1], p) + (if lines[|lines| - 1].point1 == p then [lines[|lines| - 1]] else [])
  }

  /** The lines of `lines` that arrive at `p`, in input order. */
  function LinesTo(lines: seq<RoadLineInfo>, p: Point): (r: seq<RoadLineInfo>)
    ensures forall l :: l in r <==> l in lines && l.point2 == p
  {
    if lines == [] then []
    else LinesTo(lines[..|lines| - 1], p) + (if lines[|lines| - 1].point2 == p then [lines[|lines| - 1]] else [])
  }

  /** Every point that is an endpoint of some line. */
  function Endpoints(lines: seq<RoadLineInfo>): set<Point> {
    (set l | l in lines :: l.point1) + (set l | l in lines :: l.point2)
  }

  /** The point map the loader builds from `lines`, described point by
      point: its keys are the endpoints, and each key holds the lines
      leaving it and the lines arriving at it, in input order. */
  function PointMapOf(lines: seq<RoadLineInfo>): map<Point, InOut> {
    map p | p in Endpoints(lines) :: InOut(LinesFrom(lines, p), LinesTo(lines, p))
  }

  /** The shape of every point map the loader builds: each recorded line is
      listed as outgoing at its first point and as incoming at its second,
      and both points are keys. */
  ghost predicate Consistent(m: map<Point, InOut>) {
    && (forall p, l :: p in m && l in m[p].outgoing ==>
          l.point1 == p && l.point2 in m && l in m[l.point2].incoming)
    && (forall p, l :: p in m && l in m[p].incoming ==>
          l.point2 == p && l.point1 in m && l in m[l.point1].outgoing)
  }

  /** Built point maps are consistent. */
  lemma PointMapOfConsistent(lines: seq<RoadLineInfo>)
    ensures Consistent(PointMapOf(lines))
  {
  }

  /** How `addToPointsMapOneWay` changes a point map `m` into `m'`: both
      endpoints become keys, `line` is appended to the outgoing list of its
      first point and to the incoming list of its second point, and nothing
      else changes. */
  ghost predicate AddedOneWay(m: map<Point, InOut>, m': map<Point, InOut>, line: RoadLineInfo) {
    && m'.Keys == m.Keys + {line.point1, line.point2}
    && m'[line.point1].outgoing == Out(m, line.point1) + [line]
    && m'[line.point2].incoming == In(m, line.point2) + [line]
    && (line.point1 != line.point2 ==>
          m'[line.point1].incoming == In(m, line.point1) && m'[line.point2].outgoing == Out(m, line.point2))
    && (forall p :: p in m && p != line.point1 && p != line.point2 ==> m'[p] == m[p])
  }

  /** The change is determined: at most one map results from adding a line. */
  lemma AddedOneWayDeterministic(m: map<Point, InOut>, m1: map<Point, InOut>, m2: map<Point, InOut>, line: RoadLineInfo)
    requires AddedOneWay(m, m1, line) && AddedOneWay(m, m2, line)
    ensures m1 == m2
  {
    forall p | p in m1
      ensures m1[p] == m2[p]
    {
      if p == line.point1 || p == line.point2 {
        assert m1[p].outgoing == m2[p].outgoing;
        assert m1[p].incoming == m2[p].incoming;
      }
    }
  }

  /** Adding the next input line to the point map of the lines before it
      gives the point map of the longer prefix. */
  lemma PointMapStep(lines: seq<RoadLineInfo>, i: nat, m': map<Point, InOut>)
    requires i < |lines| && AddedOneWay(PointMapOf(lines[..i]), m', lines[i])
    ensures m' == PointMapOf(lines[..i + 1])
  {
    PointMapOfPrefix(lines, i);
    AddedOneWayDeterministic(PointMapOf(lines[..i]), m', PointMapOf(lines[..i + 1]), lines[i]);
  }

  lemma PointMapOfPrefix(lines: seq<RoadLineInfo>, i: nat)
    requires i < |lines|
    ensures AddedOneWay(PointMapOf(lines[..i]), PointMapOf(lines[..i + 1]), lines[i])
  {
    assert lines[..i + 1] == lines[..i] + [lines[i]];
    PointMapOfSnoc(lines[..i], lines[i]);
  }

  lemma LinesFromSnoc(lines: seq<RoadLineInfo>, line: RoadLineInfo, p: Point)
    ensures LinesFrom(lines + [line], p) == LinesFrom(lines, p) + (if line.point1 == p then [line] else [])
    ensures LinesTo(lines + [line], p) == LinesTo(lines, p) + (if line.point2 == p then [line] else [])
  {
    assert (lines + [line])[..|lines|] == lines;
  }

  /** Appending one line to the input changes the point map exactly as
      `addToPointsMapOneWay` does. */
  lemma PointMapOfSnoc(lines: seq<RoadLineInfo>, line: RoadLineInfo)
    ensures AddedOneWay(PointMapOf(lines), PointMapOf(lines + [line]), line)
  {
    EndpointsSnoc(lines, line);
    SnocAtFirstPoint(lines, line);
    SnocAtSecondPoint(lines, line);
    SnocElsewhere(lines, line);
  }

  lemma SnocAtFirstPoint(lines: seq<RoadLineInfo>, line: RoadLineInfo)
    ensures line.point1 in PointMapOf(lines + [line])
    ensures PointMapOf(lines + [line])[line.point1].outgoing == Out(PointMapOf(lines), line.point1) + [line]
    ensures line.point1 != line.point2 ==>
              PointMapOf(lines + [line])[line.point1].incoming == In(PointMapOf(lines), line.point1)
  {
    EndpointsSnoc(lines, line);
    NoLinesAtNonEndpoint(lines, line.point1);
    LinesFromSnoc(lines, line, line.point1);
  }

  lemma SnocAtSecondPoint(lines: seq<RoadLineInfo>, line: RoadLineInfo)
    ensures line.point2 in PointMapOf(lines + [line])
    ensures PointMapOf(lines + [line])[line.point2].incoming == In(PointMapOf(lines), line.point2) + [line]
    ensures line.point1 != line.point2 ==>
              PointMapOf(lines + [line])[line.point2].outgoing == Out(PointMapOf(lines), line.point2)
  {
    EndpointsSnoc(lines, line);
    NoLinesAtNonEndpoint(lines, line.point2);
    LinesFromSnoc(lines, line, line.point2);
  }

  lemma SnocElsewhere(lines: seq<RoadLineInfo>, line: RoadLineInfo)
    ensures forall p :: p in PointMapOf(lines) && p != line.point1 && p != line.point2 ==>
              p in PointMapOf(lines + [line]) && PointMapOf(lines + [line])[p] == PointMapOf(lines)[p]
  {
    EndpointsSnoc(lines, line);
    forall p | p in PointMapOf(lines) && p != line.point1 && p != line.point2
      ensures p in PointMapOf(lines + [line]) && PointMapOf(lines + [line])[p] == PointMapOf(lines)[p]
    {
      LinesFromSnoc(lines, line, p);
    }
  }

  lemma EndpointsSnoc(lines: seq<RoadLineInfo>, line: RoadLineInfo)
    ensures Endpoints(lines + [line]) == Endpoints(lines) + {line.point1, line.point2}
  {
    var lines' := lines + [line];
    forall q | q in Endpoints(lines')
      ensures q in Endpoints(lines) + {line.point1, line.point2}
    {
      var l :| l in lines' && (q == l.point1 || q == l.point2);
      if l != line {
        assert l in lines;
      }
    }
    forall q | q in Endpoints(lines)
      ensures q in Endpoints(lines')
    {
      var l :| l in lines && (q == l.point1 || q == l.point2);
      assert l in lines';
    }
    assert line in lines';
  }

  lemma {:induction false} NoLinesAtNonEndpoint(lines: seq<RoadLineInfo>, p: Point)
    ensures p !in Endpoints(lines) ==> LinesFrom(lines, p) == [] && LinesTo(lines, p) == []
  {
    if lines != [] && p !in Endpoints(lines) {
      var init := lines[..|lines| - 1];
      assert forall l :: l in init ==> l in lines;
      assert p !in Endpoints(init);
      NoLinesAtNonEndpoint(init, p);
    }
  }

  /** The point map under construction (the Kotlin `HashMap`). */
  class PointMap {
    var entries: map<Point, InOut>

    constructor ()
      ensures entries == map[]
    {
      entries := map[];
    }

    /** `addToPointsMapOneWay`: records `line` as the last outgoing line of
        its first point and the last incoming line of its second point,
        creating the entries that are missing. */
    method AddOneWay(line: RoadLineInfo)
      modifies this
      ensures AddedOneWay(old(entries), entries, line)
      ensures line in entries[line.point1].outgoing && line in entries[line.point2].incoming
    {
      var pt1Infos := if line.point1 in entries then entries[line.point1] else InOut([], []);
      entries := entries[line.point1 := pt1Infos.(outgoing := pt1Infos.outgoing + [line])];
      var pt2Infos := if line.point2 in entries then entries[line.point2] else InOut([], []);
      entries := entries[line.point2 := pt2Infos.(incoming := pt2Infos.incoming + [line])];
    }
  }

  /** `buildPointMapOneWay` with the file replaced by its sequence of
      parsed records: the map it returns is `PointMapOf(lines)`. */
  method BuildPointMapOneWay(lines: seq<RoadLineInfo>) returns (pointMap: PointMap)
    ensures fresh(pointMap)
    ensures pointMap.entries == PointMapOf(lines)
  {
    pointMap := new PointMap();
    var i := 0;
    while i < |lines|
      invariant 0 <= i <= |lines|
      invariant pointMap.entries == PointMapOf(lines[..i])
    {
      pointMap.AddOneWay(lines[i]);
      PointMapStep(lines, i, pointMap.entries);
      i := i + 1;
    }
    assert lines[..i] == lines;
  }
}
