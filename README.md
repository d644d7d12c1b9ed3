# graphs-on-maps, modelled in Dafny

This project models the core of graphs-on-maps, a Kotlin application that
loads road maps and searches them for routes. It covers:

* **Road-map loading** (`util/GraphLoader.kt`).
  * Road lines are read into a point map: for each point, the lines that
    leave it and the lines that reach it.
  * The points that are intersections are found.
  * From each intersection, every line is walked, through the points that
    only pass a road along, to the next intersection.
  * Each walk becomes one edge of a `MapGraph`, with its road length. It
    also becomes a `RoadSegment`, which is filed under both of its ends.
  * The same walk also loads a road map into a numbered teaching `Graph`.
* **The road graph and its searches** (`roadgraph/MapGraph.kt`,
  `roadgraph/MapNode.kt`):
  * vertices and edges, with the checks that `addVertex` and `addEdge` make;
  * breadth-first search, Dijkstra's algorithm and A*. The last two share
    one loop (`BestFirst`); A* adds an estimate.
* **Geography values** (`geography/RoadSegment.kt`): a segment's points in
  either direction, its direction-blind `equals`, its `hashCode`, and the
  other end of a segment.
* **The teaching graphs** (`basicgraph/`):
  * the shared counters and labels of `Graph`;
  * the adjacency-list and adjacency-matrix representations, with their
    neighbour, in-neighbour, distance-2 and degree-sequence queries;
  * `loadGraph` and `loadRoutes`, which load numbered edge lists and
    airport routes.

## How it is modelled

Each Kotlin class whose methods update fields becomes a Dafny `class`:
`MapGraph`, `MapNode`, `Graph`, `GraphAdjList`, `GraphAdjMatrix` and the
loader's point map. Value types become datatypes: `GeographicPoint`,
`RoadSegment` and `RoadLineInfo`. `MapEdge` is a class without `equals`,
so its objects are told apart by identity, but no code assigns its `var` fields
after construction. It is a datatype as well, and each edge the program
creates is a separate list entry. Each loop of the source is a
method with a `while`/`for` loop, proved against a specification function:

* The point map the loader builds is `PointMapOf(lines)`.
* The walk along an edge is `EdgeWalk`. It is characterised as the only
  point list of its shape.
* The searches keep an invariant over the queue, the visited set, the
  lengths and the parent map:
  * every node that is visited or queued is reachable;
  * every parent link is an edge;
  * without an estimate, every visited node is settled at its shortest
    distance.
* The loaders are specified as the list of graph calls they make. A
  replay function gives the state that results.

Some of the source's unspecified choices are left open in the model. The
proofs then hold for every way of making them:

* the iteration order of the point map, of the intersection set, of
  `vertexMap.keys` and of the node set handed to `addEdgesAndSegments`;
* the order in which the priority queue breaks ties.

Other iteration orders are fixed in the model to one particular order; the
lines under "## Left out" that start with `MapNodes.MapNode`,
`AdjacencyLists.GraphAdjList.GetInNeighbors` and
`BasicGraphs.Graph.GetIndex` say which order and what depends on it.

The doc comments of `bfs` and `aStarSearch`
(`roadgraph/MapGraph.kt:72-77` and `234-240`) promise a shortest path. The
code does not guarantee one, and the model follows the code:

* `bfs` takes nodes from a `PriorityQueue` ordered by `MapNode.length`,
  not from a FIFO queue. `bfs` never sets a length, so the order comes from
  the lengths that `addVertex` or an earlier search left behind. The order
  is therefore not breadth-first, and a shortest hop count is not claimed.
* In `aStarSearch` (`MapGraph.kt:266-268`), the `length` a node gets is
  its parent's `length` plus the edge plus its own estimate. The parent's
  `length` already holds the parent's estimate, so the estimates add up
  along the route. A shortest route is then not guaranteed. The model proves that A* returns a
  route, and returns one exactly when the goal is reachable. Optimality is
  proved for Dijkstra only.

Modelling choices:

* A road length is a `real`, and `Double.MAX_VALUE` is the value `Infinity`
  of `MapNodes.Extended`.
* `GeographicPoint.distance` (the haversine formula) is a parameter
  `dist` of type `Geography.Distance`, a function whose values are
  non-negative. Nothing else about it is assumed.
* `hasVertex(v)` and `hasVertex(s)` are the predicates
  `BasicGraphs.Graph.HasVertex` and `BasicGraphs.Graph.HasLabel`. The second
  is false while there is no label map.
* Kotlin `Int` arithmetic wraps only where it matters: in the `hashCode`
  sums (`Geography.Wrap32`).

## Model

Source paths are relative to the repository root.

| member | source | states |
|---|---|---|
| Wrappers.ReverseInPlace | src/main/kotlin/com/martishin/graphsonmaps/geography/RoadSegment.kt:32 | reversing the list in place leaves exactly the old elements, back to front |
| Wrappers.Reversed | src/main/kotlin/com/martishin/graphsonmaps/geography/RoadSegment.kt:28-33 | the reversal has the same length and holds element `n-1-k` at index `k` |
| Wrappers.ReversedInvolution | src/main/kotlin/com/martishin/graphsonmaps/geography/RoadSegment.kt:28-33 | reversing twice gives the list back |
| Geography.PolylineLength | src/main/kotlin/com/martishin/graphsonmaps/util/GraphLoader.kt:241-254 | a road's length is non-negative, and for two points it is their distance |
| Geography.PolylineLengthSnoc | src/main/kotlin/com/martishin/graphsonmaps/util/GraphLoader.kt:248-252 | one more point on the road adds the distance of the last hop |
| Geography.Wrap32 | src/main/kotlin/com/martishin/graphsonmaps/geography/RoadSegment.kt:55 | JVM `Int` addition: the result is in the 32-bit range and equals the sum modulo 2^32 |
| Geography.RoadSegment.Forward | src/main/kotlin/com/martishin/graphsonmaps/geography/RoadSegment.kt:23-27 | the forward list is point1, then the geometry points, then point2 |
| Geography.RoadSegment.GetPoints | src/main/kotlin/com/martishin/graphsonmaps/geography/RoadSegment.kt:17-39 | the points from `start` to `end`, `geometryPoints.size + 2` of them, forward or reversed; IllegalArgumentException exactly when (start, end) is neither endpoint pair |
| Geography.RoadSegment.HashCode | src/main/kotlin/com/martishin/graphsonmaps/geography/RoadSegment.kt:55 | the hash is a 32-bit `Int` |
| Geography.RoadSegment.GetOtherPoint | src/main/kotlin/com/martishin/graphsonmaps/geography/RoadSegment.kt:68-76 | a result exactly for an endpoint, and then the result is the other endpoint; null otherwise |
| Geography.GetPointsBackwardIsReverse | src/main/kotlin/com/martishin/graphsonmaps/geography/RoadSegment.kt:28-33 | the reversed list, which `getPoints(point2, point1)` returns, runs from point2 through the geometry backwards to point1, and reversing it again gives the forward list |
| Geography.EqualsIsEquivalence | src/main/kotlin/com/martishin/graphsonmaps/geography/RoadSegment.kt:44-53 | `equals` is reflexive, symmetric and transitive |
| Geography.EqualsIgnoresDirectionTypeAndGeometry | src/main/kotlin/com/martishin/graphsonmaps/geography/RoadSegment.kt:44-53 | a segment equals its reverse whatever its road type and geometry |
| Geography.HashCodeConsistent | src/main/kotlin/com/martishin/graphsonmaps/geography/RoadSegment.kt:55 | equal segments have equal hash codes |
| Geography.GetOtherPointInvolution | src/main/kotlin/com/martishin/graphsonmaps/geography/RoadSegment.kt:68-76 | the other end of the other end is the point asked about |
| RoadLines.RoadLineInfo.GetOtherPoint | src/main/kotlin/com/martishin/graphsonmaps/util/GraphLoader.kt:433-438 | the opposite endpoint; IllegalArgumentException exactly for a point that is not an endpoint |
| RoadLines.RoadLineInfo.GetReverseCopy | src/main/kotlin/com/martishin/graphsonmaps/util/GraphLoader.kt:454 | the copy has the endpoints swapped and is the same road |
| RoadLines.RoadLineInfo.HashCode | src/main/kotlin/com/martishin/graphsonmaps/util/GraphLoader.kt:450 | the hash is a 32-bit `Int` |
| RoadLines.IsReverseSymmetric | src/main/kotlin/com/martishin/graphsonmaps/util/GraphLoader.kt:456-460 | `a.isReverse(b)` exactly when `b.isReverse(a)` |
| RoadLines.IsReverseCharacterisation | src/main/kotlin/com/martishin/graphsonmaps/util/GraphLoader.kt:454-460 | `r.getReverseCopy().isReverse(r)`; the only line `r` is the reverse of is its reverse copy; reversing twice gives `r` |
| RoadLines.GetOtherPointInvolution | src/main/kotlin/com/martishin/graphsonmaps/util/GraphLoader.kt:433-438 | for an endpoint, asking twice for the other end gives the point back |
| PointMaps.LinesFrom | src/main/kotlin/com/martishin/graphsonmaps/util/GraphLoader.kt:386-387 | the lines listed as leaving `p` are exactly the input lines that start at `p` |
| PointMaps.LinesTo | src/main/kotlin/com/martishin/graphsonmaps/util/GraphLoader.kt:389-390 | the lines listed as arriving at `p` are exactly the input lines that end at `p` |
| PointMaps.PointMapOfConsistent | src/main/kotlin/com/martishin/graphsonmaps/util/GraphLoader.kt:364-391 | every point map the loader builds lists each line as outgoing at its first point and incoming at its second, and both are keys |
| PointMaps.AddedOneWayDeterministic | src/main/kotlin/com/martishin/graphsonmaps/util/GraphLoader.kt:382-391 | recording a line changes the map in exactly one way |
| PointMaps.PointMapOfSnoc | src/main/kotlin/com/martishin/graphsonmaps/util/GraphLoader.kt:369-372 | recording the next line turns the map of the lines before it into the map of the longer input |
| PointMaps.PointMapStep | src/main/kotlin/com/martishin/graphsonmaps/util/GraphLoader.kt:369-372 | whatever map recording the next line gives is the map of the longer input |
| PointMaps.SnocAtFirstPoint | src/main/kotlin/com/martishin/graphsonmaps/util/GraphLoader.kt:386-387 | after recording a line, it is the last outgoing line of point1, which is a key |
| PointMaps.SnocAtSecondPoint | src/main/kotlin/com/martishin/graphsonmaps/util/GraphLoader.kt:389-390 | after recording a line, it is the last incoming line of point2, which is a key |
| PointMaps.SnocElsewhere | src/main/kotlin/com/martishin/graphsonmaps/util/GraphLoader.kt:382-391 | recording a line changes no other point's entry |
| PointMaps.EndpointsSnoc | src/main/kotlin/com/martishin/graphsonmaps/util/GraphLoader.kt:382-391 | the keys grow by the two endpoints of the line |
| PointMaps.NoLinesAtNonEndpoint | src/main/kotlin/com/martishin/graphsonmaps/util/GraphLoader.kt:382-391 | a point that ends no line has no lines |
| PointMaps.PointMap.AddOneWay | src/main/kotlin/com/martishin/graphsonmaps/util/GraphLoader.kt:382-391 | `addToPointsMapOneWay`: the line is appended to point1's outgoing and point2's incoming list, missing entries are created, nothing else changes |
| PointMaps.BuildPointMapOneWay | src/main/kotlin/com/martishin/graphsonmaps/util/GraphLoader.kt:364-380 | the map built from the records is the point map of those records |
| Intersections.ClassifyPoint | src/main/kotlin/com/martishin/graphsonmaps/util/GraphLoader.kt:317-359 | a point is a node exactly when it is neither the 1-in/1-out case (same name, no endpoint swap) nor the 2-in/2-out case (one name, lines in the reverses of the lines out in one of two pairings) |
| Intersections.FindIntersections | src/main/kotlin/com/martishin/graphsonmaps/util/GraphLoader.kt:314-362 | the result holds exactly the keys that are intersections, each once |
| Intersections.PassThroughDegree | src/main/kotlin/com/martishin/graphsonmaps/util/GraphLoader.kt:273-275 | a pass-through point has as many lines in as out, one or two, so the "Something went wrong" branch cannot be reached |
| Intersections.DeadEndIsIntersection | src/main/kotlin/com/martishin/graphsonmaps/util/GraphLoader.kt:321-357 | a point touched by one line only is an intersection |
| Intersections.OneWayIgnoresRoadType | src/main/kotlin/com/martishin/graphsonmaps/util/GraphLoader.kt:323-329 | the 1-in/1-out test compares endpoints and names but not types: a U-turn onto another road type is not `isReverse`, and the point is still an intersection |
| EdgeWalk.Choose | src/main/kotlin/com/martishin/graphsonmaps/util/GraphLoader.kt:268-272 | the line the walk takes is one of the lines leaving the point |
| EdgeWalk.PassThroughSource | src/main/kotlin/com/martishin/graphsonmaps/util/GraphLoader.kt:323-356 | at a pass-through point, the line in is the single line in, or comes from a point one of the two lines out leads to |
| EdgeWalk.ChooseInjective | src/main/kotlin/com/martishin/graphsonmaps/util/GraphLoader.kt:268-272 | at a pass-through point, different arrival points lead on to different points |
| EdgeWalk.StepInjective | src/main/kotlin/com/martishin/graphsonmaps/util/GraphLoader.kt:266-280 | a step of the walk can be undone, so the walk never repeats a hop |
| EdgeWalk.NextHopFresh | src/main/kotlin/com/martishin/graphsonmaps/util/GraphLoader.kt:266-280 | the next hop of a walk not yet at a node is new and follows a recorded line |
| EdgeWalk.WalkFrom | src/main/kotlin/com/martishin/graphsonmaps/util/GraphLoader.kt:266-280 | the walk from a hop starts at the end of that hop |
| EdgeWalk.EdgeWalkEnds | src/main/kotlin/com/martishin/graphsonmaps/util/GraphLoader.kt:266 | the walk's last point is in `nodes` and no earlier point is |
| EdgeWalk.EdgeWalkShaped | src/main/kotlin/com/martishin/graphsonmaps/util/GraphLoader.kt:262-283 | the walk starts at the line's point2, ends at a node, passes none before, follows recorded lines, and at each pass-through point takes the line the rule chooses |
| EdgeWalk.WalkShapedUnique | src/main/kotlin/com/martishin/graphsonmaps/util/GraphLoader.kt:266-280 | two walks that follow the rule and agree on their first two points are equal |
| EdgeWalk.EdgeWalkCharacterised | src/main/kotlin/com/martishin/graphsonmaps/util/GraphLoader.kt:256-284 | any point list of that shape from the line's point2 is the edge walk |
| EdgeWalk.ChooseDoesNotTurnBack | src/main/kotlin/com/martishin/graphsonmaps/util/GraphLoader.kt:269-272 | at a point with two lines out, the hop does not lead back to where the walk came from unless both lines lead there |
| EdgeWalk.WalkDoesNotTurnBack | src/main/kotlin/com/martishin/graphsonmaps/util/GraphLoader.kt:269-272 | the whole walk never turns straight back at a pass-through point, except where both lines out lead to the same place |
| EdgeWalk.FindPointsOnEdge | src/main/kotlin/com/martishin/graphsonmaps/util/GraphLoader.kt:256-284 | `findPointsOnEdge` returns the edge walk: the pass-through points, then the node the edge ends at |
| EdgeWalk.FindEndOfEdge | src/main/kotlin/com/martishin/graphsonmaps/util/GraphLoader.kt:286-312 | `findEndOfEdge` returns a key of `reverseMap`, the last point of the same walk |
| EdgeWalk.GetRoadLength | src/main/kotlin/com/martishin/graphsonmaps/util/GraphLoader.kt:241-254 | the sum of the distances over start, path..., end in order; `distance(start, end)` for an empty path; never negative |
| MapNodes.ExtendedOrder | src/main/kotlin/com/martishin/graphsonmaps/roadgraph/MapNode.kt:34 | lengths, with `Double.MAX_VALUE` as infinity, are totally ordered |
| MapNodes.MapNode.constructor | src/main/kotlin/com/martishin/graphsonmaps/roadgraph/MapNode.kt:5-10 | a new node has its location, length 0, predictedLength 0 and no edges |
| MapNodes.MapNode.AddEdge | src/main/kotlin/com/martishin/graphsonmaps/roadgraph/MapNode.kt:12-14 | the edge list grows by the edge, as one more entry |
| MapNodes.MapNode.AddEdgeTo | src/main/kotlin/com/martishin/graphsonmaps/roadgraph/MapNode.kt:16-24 | the edge list grows by one edge from the node's own location to `toLoc` |
| MapNodes.MapNode.GetNeighbors | src/main/kotlin/com/martishin/graphsonmaps/roadgraph/MapNode.kt:26-32 | one entry per edge, the `to` of that edge |
| MapNodes.MapNode.CompareTo | src/main/kotlin/com/martishin/graphsonmaps/roadgraph/MapNode.kt:34 | negative, zero or positive as this node's length is below, equal to or above the other's |
| MapGraphs.MapGraph.constructor | src/main/kotlin/com/martishin/graphsonmaps/roadgraph/MapGraph.kt:13-14 | a new graph has no vertices and no edges |
| MapGraphs.MapGraph.GetNumVertices | src/main/kotlin/com/martishin/graphsonmaps/roadgraph/MapGraph.kt:20 | the number of vertices |
| MapGraphs.MapGraph.GetVertices | src/main/kotlin/com/martishin/graphsonmaps/roadgraph/MapGraph.kt:26 | exactly the vertex points |
| MapGraphs.MapGraph.GetNumEdges | src/main/kotlin/com/martishin/graphsonmaps/roadgraph/MapGraph.kt:32 | the number of edges added, duplicates included |
| MapGraphs.MapGraph.AddVertex | src/main/kotlin/com/martishin/graphsonmaps/roadgraph/MapGraph.kt:40-46 | true exactly for a non-null new location, which then has a fresh node without edges; false leaves the graph unchanged |
| MapGraphs.MapGraph.AddEdge | src/main/kotlin/com/martishin/graphsonmaps/roadgraph/MapGraph.kt:59-71 | IllegalArgumentException exactly when the length is not positive or an end is missing, then nothing changes; otherwise exactly one more edge, in the edge list and at the start node |
| MapGraphs.MapGraph.InitLengthInfinite | src/main/kotlin/com/martishin/graphsonmaps/roadgraph/MapGraph.kt:213-218 | every node's length and predicted length become infinity; edges unchanged |
| MapGraphs.MapGraph.SetLength | src/main/kotlin/com/martishin/graphsonmaps/roadgraph/MapGraph.kt:188 | only the one node's length changes |
| MapGraphs.MapGraph.BuildPath | src/main/kotlin/com/martishin/graphsonmaps/roadgraph/MapGraph.kt:140-153 | the result is the parent chain from start to goal |
| MapGraphs.MapGraph.DiscoverEdge | src/main/kotlin/com/martishin/graphsonmaps/roadgraph/MapGraph.kt:124-129 | one edge of the BFS inner loop makes the discovery step |
| MapGraphs.MapGraph.DiscoverEdges | src/main/kotlin/com/martishin/graphsonmaps/roadgraph/MapGraph.kt:123-130 | the BFS inner loop makes the discovery steps over all edges of the node, in list order |
| MapGraphs.MapGraph.ExpandBfsNode | src/main/kotlin/com/martishin/graphsonmaps/roadgraph/MapGraph.kt:123-130 | after a node's edges the BFS loop invariant holds again, and the termination measure drops; the new state is the one `DiscoverAll` gives, queueing each newly found point once |
| MapGraphs.MapGraph.BfsStep | src/main/kotlin/com/martishin/graphsonmaps/roadgraph/MapGraph.kt:117-131 | the node taken out has the least length in the queue; it is the goal exactly when `found`, and then the visited set and parents stay as they were; otherwise the new visited set, queue and parents are those `DiscoverAll` gives over its edges, and the invariant holds again with a smaller measure |
| MapGraphs.MapGraph.BfsLoop | src/main/kotlin/com/martishin/graphsonmaps/roadgraph/MapGraph.kt:113-131 | the goal comes off the queue exactly when it is reachable, and then its parent chain is a route; every point is queued at most once over the whole run, except that the start can be queued a second time |
| MapGraphs.MapGraph.Bfs | src/main/kotlin/com/martishin/graphsonmaps/roadgraph/MapGraph.kt:94-138 | null exactly when start or goal is not a vertex or the goal is unreachable; otherwise a route from start to goal along edges; `[start]` when start is goal; no point is queued twice, except that the start, which is never marked visited, can be queued once more |
| MapGraphs.MapGraph.RelaxEdge | src/main/kotlin/com/martishin/graphsonmaps/roadgraph/MapGraph.kt:199-206 | one edge of the Dijkstra/A* inner loop makes the relaxation step: nodes' lengths change as it says, and nothing else does |
| MapGraphs.MapGraph.RelaxEdges | src/main/kotlin/com/martishin/graphsonmaps/roadgraph/MapGraph.kt:199-206 | the inner loop makes the relaxation steps over all edges of the node |
| MapGraphs.MapGraph.ExpandNode | src/main/kotlin/com/martishin/graphsonmaps/roadgraph/MapGraph.kt:199-206 | after relaxing a visited node's edges the main-loop invariant holds again, settled nodes included; the new lengths, queue and parents are those of `RelaxAll` |
| MapGraphs.MapGraph.TakeMin | src/main/kotlin/com/martishin/graphsonmaps/roadgraph/MapGraph.kt:192 | the removed node has the least length in the queue |
| MapGraphs.MapGraph.SearchStep | src/main/kotlin/com/martishin/graphsonmaps/roadgraph/MapGraph.kt:191-208 | the node taken out has the least length in the queue; if it was visited before, only the queue loses that entry; otherwise it becomes visited and is appended to the settled list, which stays free of repeats; it is the goal exactly when `found`, and if not, the lengths, queue and parents are those of `RelaxAll` over its edges; the invariant holds and the measure drops |
| MapGraphs.MapGraph.SearchLoop | src/main/kotlin/com/martishin/graphsonmaps/roadgraph/MapGraph.kt:189-210 | the goal is visited exactly when reachable; then its parent chain is a route, and without estimate a shortest one as long as the goal's length; no vertex is visited twice, and the goal is the last one visited |
| MapGraphs.MapGraph.BestFirst | src/main/kotlin/com/martishin/graphsonmaps/roadgraph/MapGraph.kt:181-210 | lengths are reset first; found exactly when both points are vertices and the goal is reachable; the parent chain is then a route, shortest without estimate; no vertex is visited twice, and the goal is the last one visited |
| MapGraphs.MapGraph.Dijkstra | src/main/kotlin/com/martishin/graphsonmaps/roadgraph/MapGraph.kt:176-211 | null exactly when start or goal is not a vertex or the goal is unreachable; otherwise a shortest route, as long as the goal's final length; `[start]` when start is goal; no vertex is visited twice, and a route comes back right after the goal is visited |
| MapGraphs.MapGraph.AStarSearch | src/main/kotlin/com/martishin/graphsonmaps/roadgraph/MapGraph.kt:241-282 | null exactly when start or goal is not a vertex or the goal is unreachable; otherwise a route from start to goal along edges; `[start]` when start is goal; no vertex is visited twice, and a route comes back right after the goal is visited |
| Routes.Stops | src/main/kotlin/com/martishin/graphsonmaps/roadgraph/MapGraph.kt:140-153 | a route has one more point than its walk has edges, and starts at the start |
| Routes.AddVertexKeeps | src/main/kotlin/com/martishin/graphsonmaps/roadgraph/MapGraph.kt:40-46 | a new vertex without edges keeps the graph well formed |
| Routes.AddEdgeKeeps | src/main/kotlin/com/martishin/graphsonmaps/roadgraph/MapGraph.kt:66-70 | an edge that passes the checks of `addEdge` keeps the graph well formed |
| Routes.StopsOfPath | src/main/kotlin/com/martishin/graphsonmaps/roadgraph/MapGraph.kt:140-153 | a route starts at the start and ends at the goal, and an edge joins each consecutive pair |
| Routes.CostPrefix | src/main/kotlin/com/martishin/graphsonmaps/roadgraph/MapGraph.kt:66 | with positive lengths, walks cost at least zero and a prefix costs no more than the whole |
| Routes.ClosedUnreachable | src/main/kotlin/com/martishin/graphsonmaps/roadgraph/MapGraph.kt:191-210 | nothing outside a set that no edge leaves can be reached from inside it |
| Searches.Chain | src/main/kotlin/com/martishin/graphsonmaps/roadgraph/MapGraph.kt:145-152 | the parent chain starts at start and ends at the goal |
| Searches.ChainIsRoute | src/main/kotlin/com/martishin/graphsonmaps/roadgraph/MapGraph.kt:140-153 | a parent chain whose links are edges is a route |
| Searches.ChainCost | src/main/kotlin/com/martishin/graphsonmaps/roadgraph/MapGraph.kt:201-203 | where lengths add up along parent links, the chain to a node costs that node's length |
| Searches.SearchState.Unreached | src/main/kotlin/com/martishin/graphsonmaps/roadgraph/MapGraph.kt:184-188 | after the reset only the start has a finite length |
| Searches.InitialInv | src/main/kotlin/com/martishin/graphsonmaps/roadgraph/MapGraph.kt:184-189 | the first pass of the main loop starts in a state that meets the invariant |
| Searches.MinExists | src/main/kotlin/com/martishin/graphsonmaps/roadgraph/MapGraph.kt:192 | a non-empty queue has a least element |
| Searches.VisitStep | src/main/kotlin/com/martishin/graphsonmaps/roadgraph/MapGraph.kt:193-195 | visiting a least unvisited node keeps the invariant, and without estimate the node is settled |
| Searches.VisitSettles | src/main/kotlin/com/martishin/graphsonmaps/roadgraph/MapGraph.kt:193-195 | without estimate, no walk to the next visited node is shorter than its length |
| Searches.LeavingCost | src/main/kotlin/com/martishin/graphsonmaps/roadgraph/MapGraph.kt:191-205 | without estimate, every walk to an unvisited node costs at least the least queued length |
| Searches.RelaxOneEffect | src/main/kotlin/com/martishin/graphsonmaps/roadgraph/MapGraph.kt:199-205 | the state changes exactly when the neighbour is an unvisited vertex that the length through the node makes shorter; it then takes that strictly lower length, the node as parent and one more queue entry; no other node's length, parent, rank or queue entries change |
| Searches.DiscoverAllQueues | src/main/kotlin/com/martishin/graphsonmaps/roadgraph/MapGraph.kt:123-130 | the pass over a node's edges queues a point exactly when it newly marks it visited, once |
| Searches.QueuedCountsStep | src/main/kotlin/com/martishin/graphsonmaps/roadgraph/MapGraph.kt:117-130 | over the run, the start has been queued once plus once if visited, and every other point once if visited, never more |
| Searches.RelaxAll | src/main/kotlin/com/martishin/graphsonmaps/roadgraph/MapGraph.kt:199-206 | relaxing a visited node's edges keeps the keys and the lengths of visited nodes |
| Searches.RelaxOneLowers | src/main/kotlin/com/martishin/graphsonmaps/roadgraph/MapGraph.kt:201-202 | relaxation only lowers lengths |
| Searches.RelaxOneEdge | src/main/kotlin/com/martishin/graphsonmaps/roadgraph/MapGraph.kt:201-205 | after the step the edge is relaxed |
| Searches.RelaxAllKeeps | src/main/kotlin/com/martishin/graphsonmaps/roadgraph/MapGraph.kt:199-206 | the inner loop keeps the standing facts and the edges relaxed before |
| Searches.RelaxAllEdges | src/main/kotlin/com/martishin/graphsonmaps/roadgraph/MapGraph.kt:199-206 | after the inner loop every edge of the node is relaxed |
| Searches.RelaxEdgesKeeps | src/main/kotlin/com/martishin/graphsonmaps/roadgraph/MapGraph.kt:199-206 | after visiting a node and relaxing its edges the main-loop invariant holds again |
| Searches.Exhausted | src/main/kotlin/com/martishin/graphsonmaps/roadgraph/MapGraph.kt:191-210 | an empty queue with the goal unvisited means the goal is unreachable |
| Searches.FoundShortest | src/main/kotlin/com/martishin/graphsonmaps/roadgraph/MapGraph.kt:196-197 | without estimate, the parent chain of the visited goal is a shortest route, as long as its length |
| Searches.FoundRoute | src/main/kotlin/com/martishin/graphsonmaps/roadgraph/MapGraph.kt:261-262 | the parent chain of the visited goal is a route |
| Searches.FoundGoal | src/main/kotlin/com/martishin/graphsonmaps/roadgraph/MapGraph.kt:196-197 | a visited goal is reported found, with a route and, without estimate, a shortest one |
| Searches.NotFound | src/main/kotlin/com/martishin/graphsonmaps/roadgraph/MapGraph.kt:210 | a queue that runs empty first justifies the null result |
| Searches.BfsInitialInv | src/main/kotlin/com/martishin/graphsonmaps/roadgraph/MapGraph.kt:113 | the BFS loop starts with its invariant |
| Searches.DiscoverAll | src/main/kotlin/com/martishin/graphsonmaps/roadgraph/MapGraph.kt:123-130 | the BFS inner loop only adds visited nodes, each with a queue entry |
| Searches.DiscoverAllKeeps | src/main/kotlin/com/martishin/graphsonmaps/roadgraph/MapGraph.kt:123-130 | the BFS inner loop keeps the standing facts |
| Searches.DiscoverAllEnds | src/main/kotlin/com/martishin/graphsonmaps/roadgraph/MapGraph.kt:123-130 | after the BFS inner loop every edge's end that is a vertex is discovered |
| Searches.BfsExpandKeeps | src/main/kotlin/com/martishin/graphsonmaps/roadgraph/MapGraph.kt:117-130 | a BFS pass for a node that is not the goal keeps the invariant and lowers the measure |
| Searches.BfsExhausted | src/main/kotlin/com/martishin/graphsonmaps/roadgraph/MapGraph.kt:133-134 | a BFS queue that runs empty before the goal justifies the null result |
| Searches.BfsFound | src/main/kotlin/com/martishin/graphsonmaps/roadgraph/MapGraph.kt:120-121 | a goal taken off the BFS queue has a parent chain that is a route |
| RoadMapLoading.SegmentForWalk | src/main/kotlin/com/martishin/graphsonmaps/util/GraphLoader.kt:217-228 | the segment starts at the line's start, runs through the walk to a node, has the line's name and type, and the polyline's length |
| RoadMapLoading.LineStart | src/main/kotlin/com/martishin/graphsonmaps/util/GraphLoader.kt:213-217 | every line leaving a node can be walked, starting at that node |
| RoadMapLoading.SegmentsFromAt | src/main/kotlin/com/martishin/graphsonmaps/util/GraphLoader.kt:216-228 | one segment per line leaving the node, the `i`-th built from the `i`-th line |
| RoadMapLoading.NodeEdges | src/main/kotlin/com/martishin/graphsonmaps/util/GraphLoader.kt:213-220 | after the node loop each visited node has its old edges plus one per line, in list order, whatever order the nodes came in |
| RoadMapLoading.AddSegmentHolds | src/main/kotlin/com/martishin/graphsonmaps/util/GraphLoader.kt:229 | `HashSet.add` keeps what the set held, adds the segment, and keeps the set free of equal elements |
| RoadMapLoading.RegisterAllHolds | src/main/kotlin/com/martishin/graphsonmaps/util/GraphLoader.kt:222-236 | every segment built is held under both its ends, and earlier holdings stay |
| RoadMapLoading.RegisterAllUnique | src/main/kotlin/com/martishin/graphsonmaps/util/GraphLoader.kt:222-236 | no set of the table holds two equal segments |
| RoadMapLoading.AddRoadEdge | src/main/kotlin/com/martishin/graphsonmaps/util/GraphLoader.kt:217-236 | one line: an edge from the node to the walk's end with the road length; IllegalArgumentException exactly when that length is not positive; the segment is registered under both ends |
| RoadMapLoading.AddEdgesFrom | src/main/kotlin/com/martishin/graphsonmaps/util/GraphLoader.kt:216-237 | every line leaving the node in list order, stopping at the first edge that throws |
| RoadMapLoading.AddEdgesAndSegments | src/main/kotlin/com/martishin/graphsonmaps/util/GraphLoader.kt:207-239 | each node once; passes exactly when every edge is positive; then the graph gains exactly the edges of all lines of all nodes and the table those segments |
| RoadMapLoading.MapOf | src/main/kotlin/com/martishin/graphsonmaps/util/GraphLoader.kt:98-101 | the map built from the records, consistent and walkable from its intersections |
| RoadMapLoading.AddVerticesWith | src/main/kotlin/com/martishin/graphsonmaps/util/GraphLoader.kt:102-106 | adding the vertices one by one gives each new point an empty list and keeps the old ones |
| RoadMapLoading.CollectTo | src/main/kotlin/com/martishin/graphsonmaps/util/GraphLoader.kt:104 | the collected set is the given one plus the intersections |
| RoadMapLoading.AddIntersections | src/main/kotlin/com/martishin/graphsonmaps/util/GraphLoader.kt:102-106 | every intersection becomes a vertex with a fresh node, old nodes stay, and the given set gains every intersection |
| RoadMapLoading.LoadRoadMap | src/main/kotlin/com/martishin/graphsonmaps/util/GraphLoader.kt:91-109 | the vertices grow by the intersections before any edge; passes exactly when all edges are positive; then exactly those edges are added and the table holds their segments |
| RoadMapLoading.LoadRoadMapSimple | src/main/kotlin/com/martishin/graphsonmaps/util/GraphLoader.kt:83-88 | the same load with no segment table and no set to fill |
| RoadMapLoading.LoadedVertex | src/main/kotlin/com/martishin/graphsonmaps/util/GraphLoader.kt:97-108 | after a load, the vertices are the old ones plus the intersections, and each intersection gains one edge per line leaving it |
| RoadMapLoading.LoadedEdge | src/main/kotlin/com/martishin/graphsonmaps/util/GraphLoader.kt:213-220 | the `k`-th new edge of an intersection starts there, ends at the next intersection along its `k`-th line, and has that line's name, type and road length |
| RoadMapLoading.LoadedSegments | src/main/kotlin/com/martishin/graphsonmaps/util/GraphLoader.kt:222-236 | with a table, the segment of every line leaving an intersection is held under both its ends, and earlier holdings stay |
| RoadGraphLoading.Numbering | src/main/kotlin/com/martishin/graphsonmaps/util/GraphLoader.kt:119-129 | `reverseMap` numbers exactly the listed intersections, each below their count |
| RoadGraphLoading.NumberingAt | src/main/kotlin/com/martishin/graphsonmaps/util/GraphLoader.kt:127-128 | the `i`-th intersection gets the number `i` |
| RoadGraphLoading.Vertices | src/main/kotlin/com/martishin/graphsonmaps/util/GraphLoader.kt:118-129 | `vertexMap` maps the numbers `0..n-1` to the intersections in list order |
| RoadGraphLoading.LineEnds | src/main/kotlin/com/martishin/graphsonmaps/util/GraphLoader.kt:139-142 | one number per line, each the number of an intersection |
| RoadGraphLoading.LineEndsAt | src/main/kotlin/com/martishin/graphsonmaps/util/GraphLoader.kt:140-141 | entry `j` is the number of the intersection line `j` ends at |
| RoadGraphLoading.EdgesToRun | src/main/kotlin/com/martishin/graphsonmaps/util/GraphLoader.kt:142 | in-range `addEdge` calls append the ends to the one list and count the edges |
| RoadGraphLoading.NodeOpsList | src/main/kotlin/com/martishin/graphsonmaps/util/GraphLoader.kt:133-144 | after the edge loop each visited vertex has its old list plus the ends of its lines, whatever order the keys came in |
| RoadGraphLoading.AddLineEdges | src/main/kotlin/com/martishin/graphsonmaps/util/GraphLoader.kt:138-143 | one `addEdge` per line leaving the intersection, to the number of the intersection it ends at |
| RoadGraphLoading.AddNumberedVertices | src/main/kotlin/com/martishin/graphsonmaps/util/GraphLoader.kt:124-130 | one `addVertex` per intersection, with both maps numbering them from 0 |
| RoadGraphLoading.VisitVertex | src/main/kotlin/com/martishin/graphsonmaps/util/GraphLoader.kt:136-143 | the edges of one vertex number; none when its point has no entry |
| RoadGraphLoading.AddNumberedEdges | src/main/kotlin/com/martishin/graphsonmaps/util/GraphLoader.kt:133-144 | every vertex number once, each with the edges of its lines |
| RoadGraphLoading.LoadRoadMapGraph | src/main/kotlin/com/martishin/graphsonmaps/util/GraphLoader.kt:112-145 | one vertex per intersection, then the `addEdge` calls of the visit; none throws |
| RoadGraphLoading.LoadedIntoEmpty | src/main/kotlin/com/martishin/graphsonmaps/util/GraphLoader.kt:112-145 | into an empty graph: one vertex per intersection, and vertex `v` lists the numbers of the intersections its lines end at |
| RoadGraphLoading.VertexOpsFromEmpty | src/main/kotlin/com/martishin/graphsonmaps/util/GraphLoader.kt:124-130 | `k` vertices added to an empty graph have empty lists |
| BasicGraphs.Insert | src/main/kotlin/com/martishin/graphsonmaps/basicgraph/Graph.kt:104 | inserting keeps the list non-increasing and adds exactly the one element |
| BasicGraphs.SortedDescending | src/main/kotlin/com/martishin/graphsonmaps/basicgraph/Graph.kt:104 | `sortedDescending` gives a non-increasing permutation of the input |
| BasicGraphs.SortedUnique | src/main/kotlin/com/martishin/graphsonmaps/basicgraph/Graph.kt:104 | a non-increasing permutation is unique, so any descending sort gives the same list |
| BasicGraphs.RepeatCount | src/main/kotlin/com/martishin/graphsonmaps/basicgraph/GraphAdjMatrix.kt:52-56 | `k` copies of `x` hold `x` exactly `k` times and nothing else |
| BasicGraphs.ExpandCount | src/main/kotlin/com/martishin/graphsonmaps/basicgraph/GraphAdjMatrix.kt:51-56 | expanding counts lists each index exactly its count of times |
| BasicGraphs.ExpandAscending | src/main/kotlin/com/martishin/graphsonmaps/basicgraph/GraphAdjMatrix.kt:51-56 | expanded entries are indices, in ascending order |
| BasicGraphs.Graph.constructor | src/main/kotlin/com/martishin/graphsonmaps/basicgraph/Graph.kt:13-17 | no vertices, no edges, no label map |
| BasicGraphs.Graph.AddVertex | src/main/kotlin/com/martishin/graphsonmaps/basicgraph/Graph.kt:38-42 | returns the old vertex count and the count grows by one |
| BasicGraphs.Graph.AddEdge | src/main/kotlin/com/martishin/graphsonmaps/basicgraph/Graph.kt:55-65 | the edge count grows by one even when the call throws IndexOutOfBoundsException, which it does exactly when an index is at or above the vertex count |
| BasicGraphs.Graph.InitializeLabels | src/main/kotlin/com/martishin/graphsonmaps/basicgraph/Graph.kt:139-141 | an empty label map replaces whatever was there |
| BasicGraphs.Graph.GetLabel | src/main/kotlin/com/martishin/graphsonmaps/basicgraph/Graph.kt:180 | the label of `v`, null exactly when there is none or no label map |
| BasicGraphs.Graph.AddLabel | src/main/kotlin/com/martishin/graphsonmaps/basicgraph/Graph.kt:164-173 | labels `v` only when in range and not yet labelled; otherwise the labels are unchanged |
| BasicGraphs.Graph.GetIndex | src/main/kotlin/com/martishin/graphsonmaps/basicgraph/Graph.kt:188-196 | NullPointerException exactly without a label map; otherwise a key exactly when some vertex has the label, and `getLabel` of it is that label |
| AdjacencyLists.InCounts | src/main/kotlin/com/martishin/graphsonmaps/basicgraph/GraphAdjList.kt:49-62 | for each vertex, the number of its edges that end at `v` |
| AdjacencyLists.InNeighborsCount | src/main/kotlin/com/martishin/graphsonmaps/basicgraph/GraphAdjList.kt:49-62 | the in-neighbour list holds `u` once per edge `u -> v`, and nothing else |
| AdjacencyLists.TwoHops | src/main/kotlin/com/martishin/graphsonmaps/basicgraph/GraphAdjList.kt:71-77 | NullPointerException exactly when some vertex of the list has no adjacency list |
| AdjacencyLists.TwoHopsMembers | src/main/kotlin/com/martishin/graphsonmaps/basicgraph/GraphAdjList.kt:71-77 | the two-hop list holds exactly the ends of walks through one of the listed vertices |
| AdjacencyLists.Distance2Members | src/main/kotlin/com/martishin/graphsonmaps/basicgraph/GraphAdjList.kt:71-77 | `x` is in `getDistance2(v)` exactly when some out-neighbour of `v` has an edge to `x` |
| AdjacencyLists.StarDistance2 | src/main/kotlin/com/martishin/graphsonmaps/basicgraph/GraphGrader.kt:185-186 | in the star graph, the hub's two-hop list is the hub once per arm |
| AdjacencyLists.TwoHopsFailure | src/main/kotlin/com/martishin/graphsonmaps/basicgraph/GraphAdjList.kt:71-77 | one vertex without a list makes the whole call throw |
| AdjacencyLists.Degrees | src/main/kotlin/com/martishin/graphsonmaps/basicgraph/Graph.kt:99-103 | one degree per vertex |
| AdjacencyLists.GraphAdjList.constructor | src/main/kotlin/com/martishin/graphsonmaps/basicgraph/GraphAdjList.kt:4 | no vertices, no edges, no labels, no lists |
| AdjacencyLists.GraphAdjList.ImplementAddVertex | src/main/kotlin/com/martishin/graphsonmaps/basicgraph/GraphAdjList.kt:9-13 | the new index gets an empty list |
| AdjacencyLists.GraphAdjList.ImplementAddEdge | src/main/kotlin/com/martishin/graphsonmaps/basicgraph/GraphAdjList.kt:20-25 | `w` is appended to the list of `v`, no other list changes |
| AdjacencyLists.GraphAdjList.AddVertex | src/main/kotlin/com/martishin/graphsonmaps/basicgraph/Graph.kt:38-42 | the next index with an empty list; the count grows by one |
| AdjacencyLists.GraphAdjList.AddEdge | src/main/kotlin/com/martishin/graphsonmaps/basicgraph/Graph.kt:55-65 | the edge count grows by one; IndexOutOfBoundsException exactly for an index at or above the count; otherwise `w` is appended to the list of `v` |
| AdjacencyLists.GraphAdjList.GetNeighbors | src/main/kotlin/com/martishin/graphsonmaps/basicgraph/GraphAdjList.kt:37 | a copy of the list of `v`; NullPointerException exactly when `v` has none |
| AdjacencyLists.GraphAdjList.GetInNeighbors | src/main/kotlin/com/martishin/graphsonmaps/basicgraph/GraphAdjList.kt:49-62 | each vertex `u` once per edge `u -> v`, vertices ascending |
| AdjacencyLists.GraphAdjList.GetDistance2 | src/main/kotlin/com/martishin/graphsonmaps/basicgraph/GraphAdjList.kt:71-77 | the lists of the out-neighbours of `v`, one after another, duplicates kept |
| AdjacencyLists.GraphAdjList.DegreeSequence | src/main/kotlin/com/martishin/graphsonmaps/basicgraph/Graph.kt:99-105 | one entry per vertex, in-degree plus out-degree, non-increasing, a permutation of the degrees |
| AdjacencyMatrices.Zeros | src/main/kotlin/com/martishin/graphsonmaps/basicgraph/GraphAdjMatrix.kt:5 | a square matrix of zeros |
| AdjacencyMatrices.Grown | src/main/kotlin/com/martishin/graphsonmaps/basicgraph/GraphAdjMatrix.kt:12-23 | for `v` past the size, a `2v` square with the old cells in place and zeros elsewhere; otherwise unchanged |
| AdjacencyMatrices.GrownRoom | src/main/kotlin/com/martishin/graphsonmaps/basicgraph/GraphAdjMatrix.kt:12-23 | after growing the dimension stays above the vertex count, and no edge lies outside the vertex block |
| AdjacencyMatrices.Incremented | src/main/kotlin/com/martishin/graphsonmaps/basicgraph/GraphAdjMatrix.kt:32-37 | cell `[v][w]` grows by one, no other cell changes |
| AdjacencyMatrices.Column | src/main/kotlin/com/martishin/graphsonmaps/basicgraph/GraphAdjMatrix.kt:69-77 | the `v`-th entry of each of the first `n` rows |
| AdjacencyMatrices.NeighborsCount | src/main/kotlin/com/martishin/graphsonmaps/basicgraph/GraphAdjMatrix.kt:49-57 | `getNeighbors(v)` lists `i` exactly `adjMatrix[v][i]` times for `i` below the count, and nothing past the vertex block |
| AdjacencyMatrices.InNeighborsCount | src/main/kotlin/com/martishin/graphsonmaps/basicgraph/GraphAdjMatrix.kt:69-77 | `getInNeighbors(v)` lists `i` exactly `adjMatrix[i][v]` times |
| AdjacencyMatrices.Degrees | src/main/kotlin/com/martishin/graphsonmaps/basicgraph/Graph.kt:99-103 | one degree per vertex |
| AdjacencyMatrices.GraphAdjMatrix.constructor | src/main/kotlin/com/martishin/graphsonmaps/basicgraph/GraphAdjMatrix.kt:4-5 | a 5 by 5 matrix of zeros, no vertices, no edges, no labels |
| AdjacencyMatrices.GraphAdjMatrix.ImplementAddVertex | src/main/kotlin/com/martishin/graphsonmaps/basicgraph/GraphAdjMatrix.kt:12-23 | the matrix grows to `2v` by `2v` with every old cell copied exactly when `v` is past its size |
| AdjacencyMatrices.GraphAdjMatrix.ImplementAddEdge | src/main/kotlin/com/martishin/graphsonmaps/basicgraph/GraphAdjMatrix.kt:32-37 | one more edge from `v` to `w`; ArrayIndexOutOfBoundsException exactly when an index is outside the matrix |
| AdjacencyMatrices.GraphAdjMatrix.AddVertex | src/main/kotlin/com/martishin/graphsonmaps/basicgraph/Graph.kt:38-42 | the next index; the matrix grows when it must, so it always has room |
| AdjacencyMatrices.GraphAdjMatrix.AddEdge | src/main/kotlin/com/martishin/graphsonmaps/basicgraph/Graph.kt:55-65 | the edge count grows by one; throws exactly for an index outside `0..n-1`; otherwise one more edge from `v` to `w` |
| AdjacencyMatrices.GraphAdjMatrix.GetNeighbors | src/main/kotlin/com/martishin/graphsonmaps/basicgraph/GraphAdjMatrix.kt:49-57 | each `i` below the count, ascending, once per edge from `v` to `i` |
| AdjacencyMatrices.GraphAdjMatrix.GetInNeighbors | src/main/kotlin/com/martishin/graphsonmaps/basicgraph/GraphAdjMatrix.kt:69-77 | each `i` below the count, ascending, once per edge from `i` to `v` |
| AdjacencyMatrices.GraphAdjMatrix.GetDistance2 | src/main/kotlin/com/martishin/graphsonmaps/basicgraph/GraphAdjMatrix.kt:87-93 | the neighbours of each neighbour of `v`, one after another, duplicates kept |
| AdjacencyMatrices.GraphAdjMatrix.DegreeSequence | src/main/kotlin/com/martishin/graphsonmaps/basicgraph/Graph.kt:99-105 | one entry per vertex, in-degree plus out-degree, non-increasing, a permutation of the degrees |
| Representations.MatrixStep | src/main/kotlin/com/martishin/graphsonmaps/basicgraph/GraphAdjMatrix.kt:12-37 | every call keeps the matrix square, non-empty and as large as the vertex count |
| Representations.AgreeInitially | src/main/kotlin/com/martishin/graphsonmaps/basicgraph/GraphAdjMatrix.kt:4-5 | the two new graphs agree |
| Representations.AgreeAddVertex | src/main/kotlin/com/martishin/graphsonmaps/basicgraph/GraphAdjMatrix.kt:12-23 | a new vertex keeps the list and matrix forms in agreement |
| Representations.AgreeAddEdge | src/main/kotlin/com/martishin/graphsonmaps/basicgraph/GraphAdjMatrix.kt:32-37 | an edge call other than one from a vertex to a negative index keeps them in agreement |
| Representations.StepAgrees | src/main/kotlin/com/martishin/graphsonmaps/basicgraph/Graph.kt:38-65 | one call on agreeing graphs leaves them agreeing with equal counters |
| Representations.RunsAgree | src/main/kotlin/com/martishin/graphsonmaps/basicgraph/GraphGrader.kt:73-80 | the same calls leave the two representations in agreement with equal counters |
| Representations.NeighborsAgree | src/main/kotlin/com/martishin/graphsonmaps/basicgraph/GraphAdjMatrix.kt:49-57 | both give `getNeighbors(v)` with the same entries |
| Representations.InNeighborsAgree | src/main/kotlin/com/martishin/graphsonmaps/basicgraph/GraphAdjMatrix.kt:69-77 | both give the same `getInNeighbors(v)`, in the same order |
| Representations.TwoHopsAgree | src/main/kotlin/com/martishin/graphsonmaps/basicgraph/GraphAdjMatrix.kt:87-93 | two-hop lists from agreeing graphs have the same entries |
| Representations.MatrixTwoHopsPermutation | src/main/kotlin/com/martishin/graphsonmaps/basicgraph/GraphAdjMatrix.kt:87-93 | the entries of a two-hop list do not depend on the order of the first hop |
| Representations.Distance2Agree | src/main/kotlin/com/martishin/graphsonmaps/basicgraph/GraphAdjMatrix.kt:87-93 | both give `getDistance2(v)` with the same entries |
| Representations.DegreesAgree | src/main/kotlin/com/martishin/graphsonmaps/basicgraph/DegreeGrader.kt:72-79 | both have the same degrees, so the same degree sequence |
| Representations.SameCallsSameAnswers | src/main/kotlin/com/martishin/graphsonmaps/basicgraph/GraphGrader.kt:73-80 | after the same calls, every query of a vertex has the same entries in both, and the degree sequences are equal |
| Representations.NegativeTargetDiverges | src/main/kotlin/com/martishin/graphsonmaps/basicgraph/Graph.kt:60 | an edge to index -1 passes the range check: the list stores it and its `getDistance2` then throws, while the matrix throws on the call |
| Representations.NegativeSourceAgrees | src/main/kotlin/com/martishin/graphsonmaps/basicgraph/GraphAdjList.kt:20-25 | an edge from index -1 is not a diverging call: the lists drop it and the two forms still agree |
| GraphLoading.ListStepsAppend | src/main/kotlin/com/martishin/graphsonmaps/basicgraph/Graph.kt:38-65 | running calls batch after batch is running them all |
| GraphLoading.ListStepsFromEmpty | src/main/kotlin/com/martishin/graphsonmaps/basicgraph/Graph.kt:38-65 | from an empty graph the calls give the plain run |
| GraphLoading.Apply | src/main/kotlin/com/martishin/graphsonmaps/basicgraph/Graph.kt:38-65 | one call as the list graph performs it; throws exactly for an edge index at or above the count |
| GraphLoading.InRangePrefix | src/main/kotlin/com/martishin/graphsonmaps/util/GraphLoader.kt:194-199 | the pairs before the first one out of range, and only those, are in range |
| GraphLoading.AddVertices | src/main/kotlin/com/martishin/graphsonmaps/util/GraphLoader.kt:189-192 | `count` calls of `addVertex`, none for a count below one |
| GraphLoading.AddEdges | src/main/kotlin/com/martishin/graphsonmaps/util/GraphLoader.kt:194-199 | edges in file order up to and including the first out-of-range one, which throws |
| GraphLoading.LoadGraph | src/main/kotlin/com/martishin/graphsonmaps/util/GraphLoader.kt:182-205 | `count` vertices, then the edges in file order until one throws |
| GraphLoading.Visit | src/main/kotlin/com/martishin/graphsonmaps/util/GraphLoader.kt:168-170 | after the lookup the airport has a vertex |
| GraphLoading.Labelling | src/main/kotlin/com/martishin/graphsonmaps/util/GraphLoader.kt:168-170 | airport `i` is the label of vertex `n0 + i`, and only those vertices are labelled |
| GraphLoading.LabelKnown | src/main/kotlin/com/martishin/graphsonmaps/basicgraph/Graph.kt:188-196 | an airport with a vertex is found by its label |
| GraphLoading.LabelFound | src/main/kotlin/com/martishin/graphsonmaps/basicgraph/Graph.kt:188-196 | with each airport labelled once, the vertex found by a label is that airport's |
| GraphLoading.LabelNew | src/main/kotlin/com/martishin/graphsonmaps/util/GraphLoader.kt:168-170 | an airport without a vertex gets the next vertex and its label |
| GraphLoading.RoutePlanNames | src/main/kotlin/com/martishin/graphsonmaps/util/GraphLoader.kt:161-173 | every airport named by a route gets exactly one vertex |
| GraphLoading.RoutesLoad | src/main/kotlin/com/martishin/graphsonmaps/util/GraphLoader.kt:148-179 | the old vertices keep their lists, and each airport's list holds the destinations of its routes, in file order |
| GraphLoading.IndexFor | src/main/kotlin/com/martishin/graphsonmaps/util/GraphLoader.kt:168-170 | a known airport keeps its vertex, a new one gets the next vertex with its label |
| GraphLoading.AddRoute | src/main/kotlin/com/martishin/graphsonmaps/util/GraphLoader.kt:168-171 | both ends looked up or added, then the edge, which cannot throw |
| GraphLoading.LoadRoutes | src/main/kotlin/com/martishin/graphsonmaps/util/GraphLoader.kt:148-179 | a fresh label map, then every route in file order |
| Searches.SkipKeeps | src/main/kotlin/com/martishin/graphsonmaps/roadgraph/MapGraph.kt:192-193 | taking an already visited node off the queue keeps the invariant |
| Searches.VisitKeeps | src/main/kotlin/com/martishin/graphsonmaps/roadgraph/MapGraph.kt:193-195 | visiting a least queued node keeps the standing facts, with only its own edges left to relax |
| Searches.RelaxOneKeeps | src/main/kotlin/com/martishin/graphsonmaps/roadgraph/MapGraph.kt:201-205 | one relaxation keeps the standing facts of the loop |
| Searches.TreeParentEdges | src/main/kotlin/com/martishin/graphsonmaps/roadgraph/MapGraph.kt:203 | every parent link the loop records is an edge of the graph |
| Routes.PathPrefix | src/main/kotlin/com/martishin/graphsonmaps/roadgraph/MapGraph.kt:140-153 | every proper prefix of a walk is a walk to the start of the next edge |
| Routes.PathSnoc | src/main/kotlin/com/martishin/graphsonmaps/roadgraph/MapGraph.kt:199-204 | a walk followed by an edge from its end is a walk to that edge's end |
| Routes.CostThroughEdge | src/main/kotlin/com/martishin/graphsonmaps/roadgraph/MapGraph.kt:201-202 | a prefix of a walk plus its next edge costs no more than the whole walk |
| Routes.FirstExit | src/main/kotlin/com/martishin/graphsonmaps/roadgraph/MapGraph.kt:191-210 | a walk that leaves a set has a first edge leaving it, reached by a walk inside |
| AdjacencyLists.TwoHopsToHub | src/main/kotlin/com/martishin/graphsonmaps/basicgraph/GraphGrader.kt:185-186 | when every arm has only the edge back to the hub, the two-hop list is the hub once per arm |
| Representations.MatrixRun | src/main/kotlin/com/martishin/graphsonmaps/basicgraph/GraphAdjMatrix.kt:4-37 | after any calls the matrix is square, non-empty and at least as large as the vertex count |

## Left out

- File and network input: the model takes the parsed records as its input. This covers the `BufferedReader` loops of `loadGraph`, `loadRoutes` and `buildPointMapOneWay`, the parsing in `splitInputString`, and `createIntersectionsFile`. The `IOException` handlers print a message and stop, which the model does not represent.
- The graphical application, `DataFetcher` and `MapMaker`: they are user interface, HTTP and JSON code outside the road-graph core.
- The graders and `CorrectAnswer`: they read answer files and print feedback. Their expectations appear only as lemmas: the star test as `AdjacencyLists.StarDistance2`, and the judging of both representations against one answer as `Representations.SameCallsSameAnswers`.
- `GeographicPoint.distance`: the haversine formula is floating-point trigonometry. It is the parameter `dist`, about which only non-negativity is known.
- Floating-point rounding: lengths and sums are exact reals, so a rounding error in a sum of doubles is not modelled.
- The `nodeSearched` callbacks and every `println` or `System.err` message: they do not change any result.
- `toString`, `adjacencyString` and the `main` functions: output formatting and demonstration only.
- Kotlin `Int` overflow of `numVertices`, `numEdges` and the loop counters: these are unbounded naturals. The one place where wrap-around shows, the `hashCode` sums, is modelled with `Geography.Wrap32`.
- `java.util.PriorityQueue` internals: the queue is a multiset from which some element of least length is taken. A queued node whose length later drops keeps its entry in the model, as it does in the heap. In the program, though, lowering `length` in place never sifts the node's heap entry up. So `remove()` can return a node that is not the least, after which the program's `dijkstra` can accept a longer route. `Searches.FoundShortest` and `MapGraphs.MapGraph.Dijkstra` prove optimality for a queue that always yields a true minimum, not for the heap as the program uses it.
- Hash iteration order of the point map, the intersection set and `vertexMap.keys`: the order is unspecified, and the model lets any order happen.
- MapNodes.MapNode: `edgeList` is a `HashSet<MapEdge>`, and `MapEdge` has no `equals` or `hashCode`, so the set is iterated in identity-hash order. The model keeps the edges as a list in insertion order. `MapNodes.MapNode.GetNeighbors`, `MapGraphs.MapGraph.DiscoverEdges` and `MapGraphs.MapGraph.RelaxEdges` are proved for that order only. The contracts of `Bfs`, `Dijkstra` and `AStarSearch` speak only of reachability, routes and cost, which do not depend on the order. The bound on how often BFS queues a point also does not depend on it. Which route comes back when several qualify does depend on it.
- MapNodes.MapNode.AddEdge: the model treats every argument as a new edge object and appends it. Passing the same `MapEdge` object a second time is a no-op on the program's identity `HashSet`, and that case is not modelled. Nothing in the program does it: this overload (`roadgraph/MapNode.kt:12-14`) has no caller, and both paths that add edges create a fresh `MapEdge` (`roadgraph/MapNode.kt:22-23`, `roadgraph/MapGraph.kt:69-70`).
- AdjacencyLists.GraphAdjList.GetInNeighbors and Representations.InNeighborsAgree: the keys of `adjListsMap`, a `HashMap<Int, …>`, are visited in ascending order. A Java HashMap visits the Int keys 0..n-1 in that order while n is at most 65,537. The spread hash `h xor (h >>> 16)` sends key 65,536 to bucket 65,537 and key 65,537 to bucket 65,536. With key 65,536 alone, it still comes after every smaller key, so the order first breaks once n reaches 65,538. How often each vertex appears (`AdjacencyLists.InNeighborsCount`) does not depend on the order.
- BasicGraphs.Graph.GetIndex: the label map is a `LinkedHashMap`, scanned in insertion order, so with a repeated label the vertex labelled first comes back. The model returns some vertex carrying the label. `loadRoutes` never repeats a label (`GraphLoading.LabelFound`), so the loaders are not affected.
- GraphLoading.LoadGraph, GraphLoading.LoadRoutes and RoadGraphLoading.LoadRoadMapGraph: the source accepts any `Graph`, but the model loads into a `GraphAdjList` only. `loadRoutes` and the `Graph` overload of `loadRoadMap` only make calls with indices the graph already holds. By `Representations.RunsAgree`, a `GraphAdjMatrix` loaded the same way agrees with the list form. `loadGraph` can read a negative index from the file. A `GraphAdjMatrix` then throws at that call and the load ends. The list form carries on: it drops an edge from a negative index (`Representations.NegativeSourceAgrees`) and stores an edge to one (`Representations.NegativeTargetDiverges`). The matrix run of `loadGraph` is not modelled.
- Aliasing: the `segments` table and the `intersectionsToLoad` set of `loadRoadMap` are passed in and handed back as values. A caller holding another reference to the same table is not modelled.
- The early returns `pointMap[end] ?: return toReturn` in `findPointsOnEdge` and `findEndOfEdge`: they cannot be taken, because every line's end is a key of the map (`PointMaps.PointMapOfConsistent`). The walks are modelled without them.
- The "Something went wrong building edges" branch: it cannot be taken (`Intersections.PassThroughDegree`).
- MapGraphs.MapGraph.Bfs: a shortest hop count is not claimed, and neither is the exact path the search grader compares against (`roadgraph/SearchGrader.kt:109`). `bfs` takes nodes in order of the `length` left in each node, not in FIFO order. While every length is equal (0 after `addVertex`), any queued node may come next, so the FIFO order of the doc comment is one of the runs covered.
- MapGraphs.MapGraph.AStarSearch: optimality is not claimed, because the estimate is added again at every hop (`roadgraph/MapGraph.kt:266-268`). The model proves a route, and one exactly when the goal is reachable. Nor does a repeated query provably give the same list. The reset of every length and prediction before the search is stated (`MapGraphs.MapGraph.BestFirst`). But ties in the queue and the order of hash iteration are arbitrary in the model, so a repeat is only proved to give some route again.
- MapGraphs.MapGraph.Dijkstra: repeating a query does not provably give the same list, only another shortest route of the same cost. Ties in the queue and hash order are arbitrary in the model. The reset of every length before the search is stated in `MapGraphs.MapGraph.BestFirst`.
- RoadGraphLoading.LoadRoadMapGraph: the `Graph` overload of `loadRoadMap` numbers the intersections from 0 whatever the graph holds already. The per-vertex result is therefore characterised for an empty graph only (`RoadGraphLoading.LoadedIntoEmpty`). For any other graph the model states the list of calls made.
- RoadMapLoading.LoadRoadMap: the first `addEdge` that throws ends the load. After such a failure the contract states the vertices and the error, but not which edges were already added.
- Representations.SameCallsSameAnswers: it is stated for runs without an edge from a vertex to a negative index. On such an edge the list form stores the edge, and later queries can throw, while the matrix form throws at once (`Representations.NegativeTargetDiverges`).
