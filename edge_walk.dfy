/** Rebuilding an edge by walking from an intersection along a chain of
    pass-through points (`findPointsOnEdge`, `findEndOfEdge` and
    `getRoadLength` in util/GraphLoader.kt).

    The Kotlin loops `while (!nodes.contains(end))` carry no bound. They
    terminate because, in a point map built by the loader and with `nodes`
    holding every intersection, a step of the walk from a pass-through point
    can be undone: the point the walk came from is determined by the point it
    is at and the point it goes to. The walk therefore never repeats a hop
    (a pair of consecutive points), and there are finitely many hops. */
module EdgeWalk {
  import opened Geography
  import opened RoadLines
  import opened PointMaps
  import opened Intersections

  /** One step of the walk: from `from` along a line to `to`. */
  datatype Hop = Hop(from: Point, to: Point)

  /** `nodes` holds every intersection of the point map, so every key that
      is not in `nodes` is a pass-through point. */
  ghost predicate Covers(m: map<Point, InOut>, nodes: set<Point>) {
    forall p {:trigger IsIntersection(m[p])} :: p in m && p !in nodes ==> !IsIntersection(m[p])
  }

  /** Of the lines leaving a point the walk reached from `pt`, the one it
      takes: the first, or the second when there are two and the first
      leads back to `pt`. */
  function Choose(nextLines: seq<RoadLineInfo>, pt: Point): (r: RoadLineInfo)
    requires |nextLines| >= 1
    ensures r in nextLines
  {
    if |nextLines| == 2 && nextLines[0].point2 == pt then nextLines[1] else nextLines[0]
  }

  /** The line the walk takes out of `end` when it arrived from `pt`. */
  function NextLine(m: map<Point, InOut>, pt: Point, end: Point): (r: RoadLineInfo)
    requires end in m && |m[end].outgoing| >= 1
    ensures r in m[end].outgoing
  {
    Choose(m[end].outgoing, pt)
  }

  /** Some recorded line runs along the hop. */
  ghost predicate ValidHop(m: map<Point, InOut>, h: Hop) {
    h.from in m && exists l :: l in m[h.from].outgoing && l.point2 == h.to
  }

  ghost function HopSpace(m: map<Point, InOut>): set<Hop> {
    set p, q | p in m && q in m :: Hop(p, q)
  }

  ghost function HopSet(trace: seq<Hop>): set<Hop> {
    set h | h in trace
  }

  /** A line recorded as leaving `h.from` is recorded as arriving at `h.to`. */
  lemma ArrivalIsRecorded(m: map<Point, InOut>, h: Hop) returns (l: RoadLineInfo)
    requires Consistent(m) && ValidHop(m, h)
    ensures h.to in m && l in m[h.to].incoming && l.point1 == h.from && l.point2 == h.to
  {
    l :| l in m[h.from].outgoing && l.point2 == h.to;
  }

  lemma ArrivalIsKey(m: map<Point, InOut>, h: Hop)
    requires Consistent(m) && ValidHop(m, h)
    ensures h.to in m
  {
    var _ := ArrivalIsRecorded(m, h);
  }

  /** The hop after `h`, taken at the pass-through point `h.to`. */
  ghost function Step(m: map<Point, InOut>, nodes: set<Point>, h: Hop): (r: Hop)
    requires Consistent(m) && Covers(m, nodes) && ValidHop(m, h) && h.to !in nodes
    ensures h.to in m && |m[h.to].outgoing| >= 1
  {
    ArrivalIsKey(m, h);
    PassThroughDegree(m[h.to]);
    Hop(h.to, NextLine(m, h.from, h.to).point2)
  }

  lemma StepValid(m: map<Point, InOut>, nodes: set<Point>, h: Hop)
    requires Consistent(m) && Covers(m, nodes) && ValidHop(m, h) && h.to !in nodes
    ensures ValidHop(m, Step(m, nodes, h))
  {
    var h' := Step(m, nodes, h);
    var l := NextLine(m, h.from, h.to);
    assert l in m[h.to].outgoing && l.point2 == h'.to;
  }

  /** `b` is the hop after `a`: `a` ends at a pass-through point and the
      walk goes on from there along `b`. */
  ghost predicate StepsTo(m: map<Point, InOut>, nodes: set<Point>, a: Hop, b: Hop) {
    Consistent(m) && Covers(m, nodes) && ValidHop(m, a) && a.to !in nodes && b == Step(m, nodes, a)
  }

  /** The hops taken so far by a walk that started at a point of `nodes`:
      each hop follows a recorded line, each one after the first is the step
      from the one before, and no hop occurs twice. */
  ghost predicate WalkTrace(m: map<Point, InOut>, nodes: set<Point>, trace: seq<Hop>) {
    && Consistent(m) && Covers(m, nodes)
    && |trace| >= 1
    && trace[0].from in nodes
    && (forall i :: 0 <= i < |trace| ==> ValidHop(m, trace[i]))
    && (forall i, j {:trigger trace[i], trace[j]} | 0 <= i && j == i + 1 && j < |trace| ::
          StepsTo(m, nodes, trace[i], trace[j]))
    && (forall i, j :: 0 <= i < j < |trace| ==> trace[i] != trace[j])
  }

  /** Where a walk can have come from into a pass-through point: the single
      line in, or (two-way) one of the points the lines out lead to. */
  lemma PassThroughSource(io: InOut, l: RoadLineInfo)
    requires !IsIntersection(io) && l in io.incoming
    ensures OneWayPassThrough(io) ==> l == io.incoming[0]
    ensures TwoWayPassThrough(io) ==> l.point1 == io.outgoing[0].point2 || l.point1 == io.outgoing[1].point2
  {
  }

  /** At a pass-through point, different arrival points lead on to
      different points. */
  lemma ChooseInjective(io: InOut, la: RoadLineInfo, lb: RoadLineInfo)
    requires !IsIntersection(io) && la in io.incoming && lb in io.incoming
    requires |io.outgoing| >= 1
    requires Choose(io.outgoing, la.point1).point2 == Choose(io.outgoing, lb.point1).point2
    ensures la.point1 == lb.point1
  {
    PassThroughSource(io, la);
    PassThroughSource(io, lb);
  }

  /** A step from a pass-through point can be undone: two hops into the same
      pass-through point that lead on to the same hop are the same hop. */
  lemma StepInjective(m: map<Point, InOut>, nodes: set<Point>, a: Hop, b: Hop)
    requires Consistent(m) && Covers(m, nodes)
    requires ValidHop(m, a) && ValidHop(m, b) && a.to == b.to && a.to !in nodes
    requires Step(m, nodes, a) == Step(m, nodes, b)
    ensures a == b
  {
    var la := ArrivalIsRecorded(m, a);
    var lb := ArrivalIsRecorded(m, b);
    ChooseInjective(m[a.to], la, lb);
  }

  /** The next hop of a walk that has not reached `nodes` is a new hop, and
      appending it keeps the trace a walk trace. */
  lemma NextHopFresh(m: map<Point, InOut>, nodes: set<Point>, trace: seq<Hop>)
    requires WalkTrace(m, nodes, trace) && trace[|trace| - 1].to !in nodes
    ensures Step(m, nodes, trace[|trace| - 1]) !in trace
    ensures Step(m, nodes, trace[|trace| - 1]) in HopSpace(m)
    ensures WalkTrace(m, nodes, trace + [Step(m, nodes, trace[|trace| - 1])])
  {
    var n := |trace|;
    var h := trace[n - 1];
    var h' := Step(m, nodes, h);
    if h' in trace {
      var j :| 0 <= j < n && trace[j] == h';
      if j == 0 {
        assert false;
      } else {
        assert StepsTo(m, nodes, trace[j - 1], trace[j]);
        StepInjective(m, nodes, trace[j - 1], h);
        assert false;
      }
    }
    StepValid(m, nodes, h);
    var _ := ArrivalIsRecorded(m, h');
    var t' := trace + [h'];
    assert forall i :: 0 <= i < n ==> t'[i] == trace[i];
    assert t'[n] == h';
    forall i, j | 0 <= i && j == i + 1 && j < |t'|
      ensures StepsTo(m, nodes, t'[i], t'[j])
    {
      if j < n {
        assert StepsTo(m, nodes, trace[i], trace[j]);
      }
    }
  }

  lemma HopSpaceShrinks(m: map<Point, InOut>, trace: seq<Hop>, h: Hop)
    requires h in HopSpace(m) && h !in trace
    ensures |HopSpace(m) - HopSet(trace + [h])| < |HopSpace(m) - HopSet(trace)|
  {
    assert HopSet(trace + [h]) == HopSet(trace) + {h};
    assert HopSpace(m) - HopSet(trace) == (HopSpace(m) - HopSet(trace + [h])) + {h};
  }

  /** The points the walk visits after the hops in `trace`, ending with the
      first point of `nodes` it reaches. */
  ghost function WalkFrom(m: map<Point, InOut>, nodes: set<Point>, trace: seq<Hop>): (r: seq<Point>)
    requires WalkTrace(m, nodes, trace)
    ensures |r| >= 1 && r[0] == trace[|trace| - 1].to
    decreases |HopSpace(m) - HopSet(trace)|
  {
    var h := trace[|trace| - 1];
    if h.to in nodes then [h.to]
    else
      NextHopFresh(m, nodes, trace);
      HopSpaceShrinks(m, trace, Step(m, nodes, h));
      [h.to] + WalkFrom(m, nodes, trace + [Step(m, nodes, h)])
  }

  /** The preconditions of the Kotlin walk: a point map built by the loader,
      `nodes` holding all its intersections, and a line that leaves one of
      the nodes. */
  ghost predicate WalkStart(m: map<Point, InOut>, nodes: set<Point>, info: RoadLineInfo) {
    && Consistent(m) && Covers(m, nodes)
    && info.point1 in nodes && info.point1 in m && info in m[info.point1].outgoing
  }

  lemma FirstHop(m: map<Point, InOut>, nodes: set<Point>, info: RoadLineInfo)
    requires WalkStart(m, nodes, info)
    ensures WalkTrace(m, nodes, [Hop(info.point1, info.point2)])
  {
    assert ValidHop(m, Hop(info.point1, info.point2));
  }

  /** The points on the edge that starts with `info`: the pass-through
      points in order, then the intersection where the edge ends. */
  ghost function EdgeWalk(m: map<Point, InOut>, nodes: set<Point>, info: RoadLineInfo): (r: seq<Point>)
    requires WalkStart(m, nodes, info)
    ensures |r| >= 1
  {
    FirstHop(m, nodes, info);
    WalkFrom(m, nodes, [Hop(info.point1, info.point2)])
  }

  /** The walk along `info` ends at a node and passes through none before. */
  lemma EdgeWalkEnds(m: map<Point, InOut>, nodes: set<Point>, info: RoadLineInfo)
    requires WalkStart(m, nodes, info)
    ensures EndsAtNode(nodes, EdgeWalk(m, nodes, info))
  {
    FirstHop(m, nodes, info);
    WalkFromEnds(m, nodes, [Hop(info.point1, info.point2)]);
  }

  /** The walk ends at a node and passes through no node before that. */
  ghost predicate EndsAtNode(nodes: set<Point>, r: seq<Point>) {
    && |r| >= 1
    && r[|r| - 1] in nodes
    && (forall i :: 0 <= i < |r| - 1 ==> r[i] !in nodes)
  }

  /** Each point of `w` (the start followed by the walk) is reached from the
      one before along a recorded line. */
  ghost predicate FollowsLines(m: map<Point, InOut>, w: seq<Point>) {
    forall i, j {:trigger w[i], w[j]} | 0 <= i && j == i + 1 && j < |w| :: ValidHop(m, Hop(w[i], w[j]))
  }

  /** After each pass-through point the walk goes where `NextLine` says,
      given the point it came from. */
  ghost predicate FollowsRule(m: map<Point, InOut>, w: seq<Point>) {
    forall i, j, k {:trigger w[i], w[j], w[k]} | 0 <= i && j == i + 1 && k == i + 2 && k < |w| ::
      RuleAt(m, w[i], w[j], w[k])
  }

  /** Having come from `a` to the pass-through point `b`, the walk goes on
      to `c`. */
  ghost predicate RuleAt(m: map<Point, InOut>, a: Point, b: Point, c: Point) {
    b in m && |m[b].outgoing| >= 1 && c == NextLine(m, a, b).point2
  }

  /** The shape of the edge walk `r` from `start`. */
  ghost predicate WalkShaped(m: map<Point, InOut>, nodes: set<Point>, start: Point, r: seq<Point>) {
    EndsAtNode(nodes, r) && FollowsLines(m, [start] + r) && FollowsRule(m, [start] + r)
  }

  /** One step of the walk: the next hop is new, the trace stays a walk
      trace, the measure drops, and the walk from here is the current point
      followed by the walk from the next hop. */
  lemma Advance(m: map<Point, InOut>, nodes: set<Point>, trace: seq<Hop>)
    requires WalkTrace(m, nodes, trace) && trace[|trace| - 1].to !in nodes
    ensures WalkTrace(m, nodes, trace + [Step(m, nodes, trace[|trace| - 1])])
    ensures |HopSpace(m) - HopSet(trace + [Step(m, nodes, trace[|trace| - 1])])| < |HopSpace(m) - HopSet(trace)|
    ensures WalkFrom(m, nodes, trace) ==
            [trace[|trace| - 1].to] + WalkFrom(m, nodes, trace + [Step(m, nodes, trace[|trace| - 1])])
  {
    NextHopFresh(m, nodes, trace);
    HopSpaceShrinks(m, trace, Step(m, nodes, trace[|trace| - 1]));
  }

  /** `Advance` for the hop that the loops of `findPointsOnEdge` and
      `findEndOfEdge` compute from the line they chose. */
  lemma AdvanceAlong(m: map<Point, InOut>, nodes: set<Point>, trace: seq<Hop>, nextInfo: RoadLineInfo)
    requires WalkTrace(m, nodes, trace)
    requires trace[|trace| - 1].to !in nodes && trace[|trace| - 1].to in m
    requires |m[trace[|trace| - 1].to].outgoing| >= 1
    requires nextInfo == Choose(m[trace[|trace| - 1].to].outgoing, trace[|trace| - 1].from)
    ensures WalkTrace(m, nodes, trace + [Hop(trace[|trace| - 1].to, nextInfo.point2)])
    ensures |HopSpace(m) - HopSet(trace + [Hop(trace[|trace| - 1].to, nextInfo.point2)])| < |HopSpace(m) - HopSet(trace)|
    ensures WalkFrom(m, nodes, trace) ==
            [trace[|trace| - 1].to] + WalkFrom(m, nodes, trace + [Hop(trace[|trace| - 1].to, nextInfo.point2)])
    ensures nextInfo.point2 in m
    ensures var t' := trace + [Hop(trace[|trace| - 1].to, nextInfo.point2)];
      t'[|t'| - 1] == Hop(trace[|trace| - 1].to, nextInfo.point2)
  {
    Advance(m, nodes, trace);
    StepValid(m, nodes, trace[|trace| - 1]);
    ArrivalIsKey(m, Step(m, nodes, trace[|trace| - 1]));
  }

  lemma EndsAtNodeCons(nodes: set<Point>, x: Point, r: seq<Point>)
    requires x !in nodes && EndsAtNode(nodes, r)
    ensures EndsAtNode(nodes, [x] + r)
  {
    var r' := [x] + r;
    forall i | 0 <= i < |r'| - 1
      ensures r'[i] !in nodes
    {
      if i > 0 {
        assert r'[i] == r[i - 1];
      }
    }
  }

  lemma {:induction false} WalkFromEnds(m: map<Point, InOut>, nodes: set<Point>, trace: seq<Hop>)
    requires WalkTrace(m, nodes, trace)
    ensures EndsAtNode(nodes, WalkFrom(m, nodes, trace))
    decreases |HopSpace(m) - HopSet(trace)|
  {
    var h := trace[|trace| - 1];
    if h.to !in nodes {
      Advance(m, nodes, trace);
      var t' := trace + [Step(m, nodes, h)];
      WalkFromEnds(m, nodes, t');
      EndsAtNodeCons(nodes, h.to, WalkFrom(m, nodes, t'));
    }
  }

  /** The walk from the last hop of `trace`, with the start of that hop in
      front. */
  ghost function Walked(m: map<Point, InOut>, nodes: set<Point>, trace: seq<Hop>): seq<Point>
    requires WalkTrace(m, nodes, trace)
  {
    [trace[|trace| - 1].from] + WalkFrom(m, nodes, trace)
  }

  lemma WalkedUnfold(m: map<Point, InOut>, nodes: set<Point>, trace: seq<Hop>)
    requires WalkTrace(m, nodes, trace) && trace[|trace| - 1].to !in nodes
    ensures WalkTrace(m, nodes, trace + [Step(m, nodes, trace[|trace| - 1])])
    ensures Walked(m, nodes, trace) ==
            [trace[|trace| - 1].from] + Walked(m, nodes, trace + [Step(m, nodes, trace[|trace| - 1])])
  {
    Advance(m, nodes, trace);
    var t' := trace + [Step(m, nodes, trace[|trace| - 1])];
    assert t'[|t'| - 1].from == trace[|trace| - 1].to;
  }

  lemma FollowsLinesCons(m: map<Point, InOut>, x: Point, w: seq<Point>)
    requires |w| >= 1 && ValidHop(m, Hop(x, w[0])) && FollowsLines(m, w)
    ensures FollowsLines(m, [x] + w)
  {
    var w' := [x] + w;
    forall i, j | 0 <= i && j == i + 1 && j < |w'|
      ensures ValidHop(m, Hop(w'[i], w'[j]))
    {
      if i > 0 {
        assert w'[i] == w[i - 1] && w'[j] == w[j - 1];
      }
    }
  }

  lemma FollowsRuleCons(m: map<Point, InOut>, x: Point, w: seq<Point>)
    requires |w| >= 1 && FollowsRule(m, w)
    requires |w| >= 2 ==> RuleAt(m, x, w[0], w[1])
    ensures FollowsRule(m, [x] + w)
  {
    var w' := [x] + w;
    forall i, j, k | 0 <= i && j == i + 1 && k == i + 2 && k < |w'|
      ensures RuleAt(m, w'[i], w'[j], w'[k])
    {
      if i > 0 {
        assert w'[i] == w[i - 1] && w'[j] == w[j - 1] && w'[k] == w[k - 1];
      }
    }
  }

  lemma {:induction false} WalkFromFollowsLines(m: map<Point, InOut>, nodes: set<Point>, trace: seq<Hop>)
    requires WalkTrace(m, nodes, trace)
    ensures FollowsLines(m, Walked(m, nodes, trace))
    decreases |HopSpace(m) - HopSet(trace)|
  {
    var h := trace[|trace| - 1];
    if h.to !in nodes {
      Advance(m, nodes, trace);
      var t' := trace + [Step(m, nodes, h)];
      WalkedUnfold(m, nodes, trace);
      WalkFromFollowsLines(m, nodes, t');
      FollowsLinesCons(m, h.from, Walked(m, nodes, t'));
    } else {
      var w := Walked(m, nodes, trace);
      assert Hop(w[0], w[1]) == h;
    }
  }

  /** Where the walk goes on from the last hop of `trace`: from its end
      along the line `NextLine` chooses. */
  lemma RuleAtJoin(m: map<Point, InOut>, nodes: set<Point>, trace: seq<Hop>)
    requires WalkTrace(m, nodes, trace) && trace[|trace| - 1].to !in nodes
    ensures WalkTrace(m, nodes, trace + [Step(m, nodes, trace[|trace| - 1])])
    ensures var h := trace[|trace| - 1];
            var w' := Walked(m, nodes, trace + [Step(m, nodes, h)]);
            |w'| >= 2 && RuleAt(m, h.from, w'[0], w'[1])
  {
    var h := trace[|trace| - 1];
    var h' := Step(m, nodes, h);
    Advance(m, nodes, trace);
    var t' := trace + [h'];
    assert t'[|t'| - 1] == h';
  }

  lemma {:induction false} WalkFromFollowsRule(m: map<Point, InOut>, nodes: set<Point>, trace: seq<Hop>)
    requires WalkTrace(m, nodes, trace)
    ensures FollowsRule(m, Walked(m, nodes, trace))
    decreases |HopSpace(m) - HopSet(trace)|
  {
    var h := trace[|trace| - 1];
    if h.to !in nodes {
      Advance(m, nodes, trace);
      var t' := trace + [Step(m, nodes, h)];
      WalkedUnfold(m, nodes, trace);
      RuleAtJoin(m, nodes, trace);
      WalkFromFollowsRule(m, nodes, t');
      FollowsRuleCons(m, h.from, Walked(m, nodes, t'));
    }
  }

  /** The edge walk from `info` starts at the second point of `info`, ends
      at a node, passes only through points outside `nodes`, follows
      recorded lines, and at every pass-through point takes the line chosen
      by `NextLine`. */
  lemma EdgeWalkShaped(m: map<Point, InOut>, nodes: set<Point>, info: RoadLineInfo)
    requires WalkStart(m, nodes, info)
    ensures WalkShaped(m, nodes, info.point1, EdgeWalk(m, nodes, info))
    ensures EdgeWalk(m, nodes, info)[0] == info.point2
  {
    var t := [Hop(info.point1, info.point2)];
    FirstHop(m, nodes, info);
    WalkFromEnds(m, nodes, t);
    WalkFromFollowsLines(m, nodes, t);
    WalkFromFollowsRule(m, nodes, t);
    assert Walked(m, nodes, t) == [info.point1] + EdgeWalk(m, nodes, info);
  }

  /** The rule determines the walk: two walks of that shape (each with its
      start in front) that agree on the start and the first point are
      equal. */
  lemma {:induction false} WalkShapedUnique(m: map<Point, InOut>, nodes: set<Point>, w1: seq<Point>, w2: seq<Point>)
    requires |w1| >= 2 && EndsAtNode(nodes, w1[1..]) && FollowsRule(m, w1)
    requires |w2| >= 2 && EndsAtNode(nodes, w2[1..]) && FollowsRule(m, w2)
    requires w1[0] == w2[0] && w1[1] == w2[1]
    ensures w1 == w2
    decreases |w1|
  {
    EndsAtNodeHead(nodes, w1[1..]);
    EndsAtNodeHead(nodes, w2[1..]);
    if w1[1] !in nodes {
      assert RuleAt(m, w1[0], w1[1], w1[2]);
      assert RuleAt(m, w2[0], w2[1], w2[2]);
      FollowsRuleTail(m, w1);
      FollowsRuleTail(m, w2);
      EndsAtNodeTail(nodes, w1[1..]);
      EndsAtNodeTail(nodes, w2[1..]);
      WalkShapedUnique(m, nodes, w1[1..], w2[1..]);
    }
    SameHeadSameTail(w1, w2);
  }

  lemma SameHeadSameTail<T>(a: seq<T>, b: seq<T>)
    requires |a| >= 1 && |b| >= 1 && a[0] == b[0] && a[1..] == b[1..]
    ensures a == b
  {
    assert a == [a[0]] + a[1..] && b == [b[0]] + b[1..];
  }

  /** A walk is a single point exactly when its first point is a node. */
  lemma EndsAtNodeHead(nodes: set<Point>, r: seq<Point>)
    requires EndsAtNode(nodes, r)
    ensures r[0] in nodes <==> |r| == 1
  {
  }

  lemma EndsAtNodeTail(nodes: set<Point>, r: seq<Point>)
    requires |r| >= 2 && EndsAtNode(nodes, r)
    ensures EndsAtNode(nodes, r[1..])
  {
    var t := r[1..];
    assert forall i :: 0 <= i < |t| ==> t[i] == r[i + 1];
  }

  lemma FollowsRuleTail(m: map<Point, InOut>, w: seq<Point>)
    requires |w| >= 1 && FollowsRule(m, w)
    ensures FollowsRule(m, w[1..])
  {
    var w' := w[1..];
    forall i, j, k | 0 <= i && j == i + 1 && k == i + 2 && k < |w'|
      ensures RuleAt(m, w'[i], w'[j], w'[k])
    {
      assert w'[i] == w[i + 1] && w'[j] == w[j + 1] && w'[k] == w[k + 1];
    }
  }

  /** Any sequence of that shape starting at the second point of `info` is
      the edge walk. */
  lemma EdgeWalkCharacterised(m: map<Point, InOut>, nodes: set<Point>, info: RoadLineInfo, r: seq<Point>)
    requires WalkStart(m, nodes, info)
    requires EndsAtNode(nodes, r) && FollowsRule(m, [info.point1] + r) && r[0] == info.point2
    ensures r == EdgeWalk(m, nodes, info)
  {
    EdgeWalkShaped(m, nodes, info);
    var w1, w2 := [info.point1] + r, [info.point1] + EdgeWalk(m, nodes, info);
    assert w1[1..] == r && w2[1..] == EdgeWalk(m, nodes, info);
    WalkShapedUnique(m, nodes, w1, w2);
  }

  /** At a pass-through point the chosen line does not lead straight back
      to where the walk came from, unless the point is two-way and both
      lines out lead to the same place. */
  lemma ChooseDoesNotTurnBack(io: InOut, p: Point, l: RoadLineInfo)
    requires !IsIntersection(io) && l in io.incoming && l.point2 == p
    requires forall o :: o in io.outgoing ==> o.point1 == p
    requires |io.outgoing| != 2 || io.outgoing[0].point2 != io.outgoing[1].point2
    ensures |io.outgoing| >= 1 && Choose(io.outgoing, l.point1).point2 != l.point1
  {
    PassThroughSource(io, l);
    if OneWayPassThrough(io) {
      assert !EndpointsSwapped(io.incoming[0], io.outgoing[0]);
    }
  }

  /** The edge walk never turns straight back at a pass-through point,
      except at a two-way point whose two lines out lead to the same place. */
  lemma WalkDoesNotTurnBack(m: map<Point, InOut>, nodes: set<Point>, info: RoadLineInfo, i: int)
    requires WalkStart(m, nodes, info)
    requires 0 <= i < |EdgeWalk(m, nodes, info)| - 1
    ensures var w := [info.point1] + EdgeWalk(m, nodes, info);
      w[i + 1] in m && (|m[w[i + 1]].outgoing| != 2 || m[w[i + 1]].outgoing[0].point2 != m[w[i + 1]].outgoing[1].point2) ==>
      w[i + 2] != w[i]
  {
    EdgeWalkShaped(m, nodes, info);
    var w := [info.point1] + EdgeWalk(m, nodes, info);
    assert ValidHop(m, Hop(w[i], w[i + 1]));
    assert RuleAt(m, w[i], w[i + 1], w[i + 2]);
    assert w[i + 1] !in nodes;
    var l := ArrivalIsRecorded(m, Hop(w[i], w[i + 1]));
    if |m[w[i + 1]].outgoing| != 2 || m[w[i + 1]].outgoing[0].point2 != m[w[i + 1]].outgoing[1].point2 {
      ChooseDoesNotTurnBack(m[w[i + 1]], w[i + 1], l);
    }
  }

  lemma AppendAssoc<T>(a: seq<T>, b: seq<T>, c: seq<T>)
    ensures (a + b) + c == a + (b + c)
  {
  }

  /** `findPointsOnEdge`: the pass-through points of the edge that starts
      with `info`, followed by the intersection it ends at. The early
      returns on a point missing from the map cannot happen in a map built
      by the loader, and the "Something went wrong" branch cannot happen
      when `nodes` holds every intersection, so neither is modelled. */
  method FindPointsOnEdge(pointMap: map<Point, InOut>, info: RoadLineInfo, nodes: set<Point>)
    returns (toReturn: seq<Point>)
    requires WalkStart(pointMap, nodes, info)
    ensures toReturn == EdgeWalk(pointMap, nodes, info)
  {
    FirstHop(pointMap, nodes, info);
    ArrivalIsKey(pointMap, Hop(info.point1, info.point2));
    toReturn := [];
    var pt := info.point1;
    var end := info.point2;
    ghost var trace := [Hop(pt, end)];
    var nextLines := pointMap[end].outgoing;
    while end !in nodes
      invariant WalkTrace(pointMap, nodes, trace) && trace[|trace| - 1] == Hop(pt, end)
      invariant end in pointMap && nextLines == pointMap[end].outgoing
      invariant toReturn + WalkFrom(pointMap, nodes, trace) == EdgeWalk(pointMap, nodes, info)
      decreases |HopSpace(pointMap) - HopSet(trace)|
    {
      ghost var before := toReturn;
      toReturn := toReturn + [end];
      PassThroughDegree(pointMap[end]);
      var nextInfo := nextLines[0];
      if |nextLines| == 2 {
        if nextInfo.point2 == pt {
          nextInfo := nextLines[1];
        }
      }
      AdvanceAlong(pointMap, nodes, trace, nextInfo);
      AppendAssoc(before, [end], WalkFrom(pointMap, nodes, trace + [Hop(end, nextInfo.point2)]));
      pt := end;
      end := nextInfo.point2;
      trace := trace + [Hop(pt, end)];
      nextLines := pointMap[end].outgoing;
    }
    toReturn := toReturn + [end];
  }

  /** `findEndOfEdge`: the same walk, keeping only the point it ends at;
      the nodes are the keys of `reverseMap` (intersection to index). */
  method FindEndOfEdge(pointMap: map<Point, InOut>, info: RoadLineInfo, reverseMap: map<Point, int>)
    returns (end: Point)
    requires WalkStart(pointMap, reverseMap.Keys, info)
    ensures end in reverseMap
    ensures end == Last(EdgeWalk(pointMap, reverseMap.Keys, info))
  {
    ghost var nodes := reverseMap.Keys;
    FirstHop(pointMap, nodes, info);
    ArrivalIsKey(pointMap, Hop(info.point1, info.point2));
    var pt := info.point1;
    end := info.point2;
    ghost var trace := [Hop(pt, end)];
    while end !in reverseMap
      invariant WalkTrace(pointMap, nodes, trace) && trace[|trace| - 1] == Hop(pt, end)
      invariant end in pointMap
      invariant Last(WalkFrom(pointMap, nodes, trace)) == Last(EdgeWalk(pointMap, nodes, info))
      decreases |HopSpace(pointMap) - HopSet(trace)|
    {
      var nextLines := pointMap[end].outgoing;
      PassThroughDegree(pointMap[end]);
      var nextInfo := nextLines[0];
      if |nextLines| == 2 {
        if nextInfo.point2 == pt {
          nextInfo := nextLines[1];
        }
      }
      AdvanceAlong(pointMap, nodes, trace, nextInfo);
      LastOfCons(end, WalkFrom(pointMap, nodes, trace + [Hop(end, nextInfo.point2)]));
      pt := end;
      end := nextInfo.point2;
      trace := trace + [Hop(pt, end)];
    }
  }

  /** The last element of a non-empty sequence. */
  function Last<T>(s: seq<T>): T
    requires |s| >= 1
  {
    s[|s| - 1]
  }

  lemma LastOfCons<T>(x: T, s: seq<T>)
    requires |s| >= 1
    ensures Last([x] + s) == Last(s)
  {
  }


  /** `getRoadLength`: the distances along start, path..., end added up
      from the start. */
  method GetRoadLength(dist: Distance, start: Point, end: Point, path: seq<Point>) returns (d: real)
    ensures d == PolylineLength(dist, [start] + path + [end])
    ensures path == [] ==> d == dist(start, end)
    ensures d >= 0.0
  {
    d := 0.0;
    var curr := start;
    ghost var ps := [start] + path;
    for i := 0 to |path|
      invariant curr == ps[i]
      invariant d == PolylineLength(dist, ps[..i + 1])
    {
      PolylineLengthSnoc(dist, ps[..i + 1], path[i]);
      assert ps[..i + 2] == ps[..i + 1] + [path[i]];
      d := d + dist(curr, path[i]);
      curr := path[i];
    }
    PolylineLengthSnoc(dist, ps, end);
    assert ps[..|path| + 1] == ps;
    d := d + dist(curr, end);
  }
}
