# Frugal-Maps route engine in Dafny

A Dafny model of the query engine of Frugal-Maps (`lab.py`). The engine:

- builds a road graph from OpenStreetMap node and way records;
- snaps two query positions to their nearest road nodes;
- finds a shortest route between those nodes by uniform-cost search;
- returns the positions along that route.

The model follows the engine's three parts and the glue that joins them:

| file | module | what it holds |
|---|---|---|
| `options.dfy` | `Options` | `Option`, standing in for Python's `None` |
| `osm.dfy` | `Osm` | node and way records, tags, the allowed highway types, the roadway and one-way tests |
| `road_graph.dfy` | `RoadGraph` | the node table (ids in insertion order plus the id-to-node map), edges, paths, path cost |
| `graph_builder.dfy` | `GraphBuilder` | `build_internal_representation`: the node pass, then the way pass adding children |
| `nearest.dfy` | `NearestNode` | `find_nearest_nodes`: the scan for the first strict minimum below the initial bound |
| `agenda.dfy` | `Agenda` | the agenda entries and the stable sort by cost that `list.sort` performs |
| `path_search.dfy` | `PathSearch` | `find_short_path_nodes`: the search loop, its invariant and the optimality proof |
| `route_query.dfy` | `RouteQuery` | `find_short_path`: nearest nodes, search, positions |
| `scenarios.dfy` | `Scenarios` | a three-node street, two-way, one-way and as a footway, with exact answers |

Modelling choices:

- **Node table.** A Python `dict` iterates in first-insertion order, and the nearest-node scan breaks ties by that order. The node table is therefore `NodeTable(order, data)`. A later record with the same id replaces the node, but the id keeps its first place in `order`.
- **Distance.** `great_circle_distance` is a parameter `dist: (Coord, Coord) -> real`, and `RoadGraph.Weight` is `get_distance` (lab.py:70-75): `dist` applied to the positions of two nodes. The search results assume only that it never returns a negative value. Positions are pairs of reals that the model never computes with.
- **Agenda.** `agenda.sort(key=...)` is a stable sort, modelled as a stable insertion sort on a sequence of `Entry(path, cost)`.
- **Initial bound.** The nearest-node scan starts from the constant 100000000000, kept as `InitialMinDistance`. A node is only ever chosen if it is strictly closer than that.
- **Crashing lookups.** Where the source would raise `KeyError` or iterate over `None`, the model has a precondition. Each one is named under "Left out".

## Model

| member | source | states |
|---|---|---|
| GraphBuilder.PutNode | lab.py:43 | storing one record keeps the table well formed: every stored id is listed exactly once in the insertion order |
| GraphBuilder.AddNodes | lab.py:40-43 | the node pass gives a table whose insertion order lists every stored id exactly once and whose ids are exactly the ids of the records |
| GraphBuilder.AddNodesNoChildren | lab.py:43 | every node starts with an empty children list |
| GraphBuilder.AddNodesLastRecordWins | lab.py:42-43 | the node stored under an id has the position and tags of the last record carrying that id |
| GraphBuilder.AddNodesFirstInsertionOrder | lab.py:40-43 | the table lists ids in the order of the first record carrying each of them |
| GraphBuilder.AddChild | lab.py:57-58 | a guarded append adds exactly the edge a to b if it is missing, keeps children duplicate-free, and changes no position or tag |
| GraphBuilder.Step | lab.py:53-65 | one iteration over a way's nodes adds the forward edge, and on a two-way road also the backward edge, and nothing else |
| GraphBuilder.AddWay | lab.py:53-65 | processing one retained way changes no position, tag or insertion order, and a table without duplicate children keeps none |
| GraphBuilder.AddWayUpToEdges | lab.py:53-65 | after the first y iterations the edges are the old ones plus those of iterations 0..y-1 |
| GraphBuilder.AddWayEdges | lab.py:53-65 | processing a retained way adds exactly its consecutive pairs, forward always and backward unless it is one-way |
| GraphBuilder.OnewayAddsForwardEdgesOnly | lab.py:55-58 | every edge a one-way road adds follows its node order; no reverse edge is created |
| GraphBuilder.AddsEveryForwardEdge | lab.py:55-62 | every retained road, one-way or not, adds every consecutive pair in its node order |
| GraphBuilder.TwoWayAddsBothDirections | lab.py:59-65 | a road that is not one-way adds every consecutive pair in both directions |
| GraphBuilder.AddWays | lab.py:45-65 | the way pass changes no position, tag or insertion order and keeps every children list duplicate-free |
| GraphBuilder.AddWaysEdges | lab.py:47-65 | the way pass adds exactly the edges of the roadways among the records; ways failing the highway test add none |
| GraphBuilder.Build | lab.py:31-68 | the built table is well formed, holds exactly the ids of the node records, and no children list has a duplicate |
| GraphBuilder.BuildEdges | lab.py:47-65 | in the built graph, b is a child of a exactly when some roadway record has a and b consecutive in an allowed direction |
| GraphBuilder.RoadEdgeTargetKnown | lab.py:57-64 | when every roadway node is a known node, both ends of every roadway edge are known nodes |
| GraphBuilder.BuildClosed | lab.py:47-65 | when every roadway node is a known node, the build's lookups succeed and every child is a node of the table |
| GraphBuilder.AddWaysStoresLastRoadway | lab.py:49-50 | the way table holds, under each id, the nodes and tags of the last roadway record with that id |
| GraphBuilder.AddWaysEntryFromRoadway | lab.py:49-50 | every way-table entry comes from a record that passed the highway test |
| GraphBuilder.LastRoadwayAfter | lab.py:49-50 | every roadway record is followed, at or after it, by a last roadway record with its id |
| GraphBuilder.BuildRelevantNodes | lab.py:82-86 | a node is relevant exactly when it lies on the last roadway record carrying some id; a node only on an overwritten roadway is not relevant |
| GraphBuilder.BuildNodes | lab.py:40-43 | the built table holds, under each id, the position and tags of the last record carrying it, and lists ids in the order of their first record |
| RoadGraph.Locations | lab.py:177-180 | the positions of a path's nodes, one per node and in order |
| RoadGraph.WeightNonNegative | lab.py:70-75 | with non-negative distances every step weighs at least zero |
| RoadGraph.WeightSymmetric | lab.py:70-75 | a symmetric distance, as the great-circle distance is, makes a step weigh the same in both directions |
| RoadGraph.PathCostNonNegative | lab.py:70-75 | with non-negative distances a path's cost is non-negative |
| RoadGraph.PathCostAppend | lab.py:146 | extending a path by one node adds the distance of that step to its cost |
| RoadGraph.PathCostPrefix | lab.py:146 | costs never decrease along extensions: no prefix of a path costs more than the path |
| RoadGraph.PathNodesInTable | lab.py:141-146 | in a table whose children are all nodes, every node after the first on a path is a node of the table |
| NearestNode.CollectRelevantNodes | lab.py:82-86 | concatenating the node lists of the stored ways one way at a time and turning the result into a set yields exactly the ids lying on some stored way |
| NearestNode.Scan | lab.py:88-103 | the scan state is the initial bound with no node, or a node of the table together with its distance |
| NearestNode.ScanIsNearest | lab.py:92-103 | the scan returns None exactly when no relevant node is below the bound; otherwise it returns the first relevant node closer than every earlier one and no farther than every later one |
| NearestNode.Nearest | lab.py:77-104 | the nearest-node answer for one position is a relevant node of minimal distance, first in insertion order among ties, or None |
| NearestNode.NearestIsUnique | lab.py:95-103 | the first-minimum description admits one answer only |
| NearestNode.NearestFoundIffRoutableNode | lab.py:88-104 | when all distances are below the initial bound, a node is found exactly when some node of the table lies on a stored way |
| NearestNode.FindNearestNodes | lab.py:77-104 | the single loop over the table computes, for both positions at once, the same answers as two separate scans |
| Agenda.InsertionPoint | lab.py:148 | a stable sort places a new entry after every entry of no greater cost and before every costlier one |
| Agenda.Insert | lab.py:148 | inserting into a sorted agenda keeps it sorted and adds exactly that entry |
| Agenda.SortByCost | lab.py:148 | the sorted agenda is in order of cost and is a permutation of the input |
| Agenda.InsertWithCost | lab.py:148 | an inserted entry goes after the entries of equal cost already present |
| Agenda.SortByCostStable | lab.py:148 | the sort is stable: entries of equal cost keep their relative order |
| Agenda.SortByCostSorted | lab.py:148 | sorting an agenda already in order changes nothing |
| PathSearch.Extend | lab.py:146 | extending an entry by a node keeps its path as a prefix and ends at that node; an entry whose cost is its path cost keeps that property, and with non-negative distances the cost does not fall |
| PathSearch.Extensions | lab.py:141-146 | expansion adds, for each unexpanded child, the path extended by that child at the old cost plus the distance of the step, and nothing else |
| PathSearch.Initially | lab.py:122-124 | the initial agenda, with the start alone at cost 0 and nothing expanded, satisfies the loop invariant |
| PathSearch.HeadCostsLeast | lab.py:128 | the entry popped from a sorted agenda costs no more than any entry on it |
| PathSearch.CheapestFirst | lab.py:127-148 | the entry at the head of the agenda costs no more than any path from the start to a node not yet expanded |
| PathSearch.SkipKeepsInv | lab.py:128-132 | dropping a popped entry whose last node is already expanded keeps the invariant |
| PathSearch.ExtendOk | lab.py:138-146 | an extension by an unexpanded child is a path from the start that repeats no node and whose cost is its path cost |
| PathSearch.ExpandEntries | lab.py:136-146 | after an expansion, every agenda entry is a duplicate-free path from the start whose recorded cost equals its path cost |
| PathSearch.ExpandFrontier | lab.py:136-146 | after an expansion, every unexpanded child of an expanded node is offered at no more than the cost through that node |
| PathSearch.ExpandSettled | lab.py:136-138 | a node is expanded at the least cost of any path to it |
| PathSearch.ExpandKeepsInv | lab.py:127-148 | expanding the cheapest entry and re-sorting keeps the whole invariant, including sortedness of the agenda |
| PathSearch.GoalFound | lab.py:133-135 | the first popped entry that ends at the goal is a duplicate-free route from start to goal and is a shortest route |
| PathSearch.Exhausted | lab.py:127-151 | when the agenda empties, every node reachable from the start has been expanded |
| PathSearch.FindShortPathNodes | lab.py:106-151 | the search returns the start alone when start and goal coincide; otherwise a returned path is a shortest duplicate-free route along children edges, and None comes back exactly when no route exists |
| RouteQuery.NearestIsKnown | lab.py:92-103 | a nearest node is a node of the table |
| RouteQuery.FindShortPath | lab.py:154-181 | the result starts at the position of the node nearest the first location, ends at that of the node nearest the second, and is the positions along a shortest duplicate-free route between them |
| Scenarios.StreetEdges | lab.py:53-65 | the street A-B-C adds A to B and B to C, and also the reverse edges unless it is one-way |
| Scenarios.TwoWayStreetRoute | lab.py:59-65 | on a two-way street the only route from A to C that repeats no node is A, B, C |
| Scenarios.OnewayStreetHasNoWayBack | lab.py:55-58 | on a one-way street C does not reach A |
| Scenarios.StreetNodes | lab.py:40-43 | the street's table holds exactly the three points |
| Scenarios.StreetConnects | lab.py:53-65 | along any street, one-way or not, A reaches C |
| Scenarios.FootwayAddsNothing | lab.py:49 | a footway contributes no edge |
| Scenarios.TwoWayStreetQuery | lab.py:106-151 | the search from A to C on the two-way street returns A, B, C for every non-negative distance |
| Scenarios.OnewayStreetQuery | lab.py:150-151 | the search from C to A on the one-way street returns None |

## Left out

- Reading the OpenStreetMap files (`read_osm_data`, lab.py:2, 42, 47). This is file I/O; the builder takes sequences of node and way records instead.
- The body of `great_circle_distance` (lab.py:2, 74). The `util` module is not part of this model. The distance is a caller-supplied function.
- Floating-point arithmetic. Costs are exact reals and positions are opaque reals; rounding in sums is not modelled.
- `DEFAULT_SPEED_LIMIT_MPH` (lab.py:14-28). The engine never reads it.
- The `__main__` block (lab.py:183-192).
- The running time of re-sorting the whole agenda after each expansion.
- GraphBuilder.Build: requires that every node the ways pass looks up is a key of the node table. The source raises `KeyError` otherwise (lab.py:57, 61, 64). The requirement is exactly the set of lookups the source makes. The last node of a one-way road is never looked up, and neither is the only node of a one-node road.
- PathSearch.FindShortPathNodes: requires that the start be a node of the table unless it is also the goal. The source raises `KeyError` at lab.py:141 otherwise.
- PathSearch.FindShortPathNodes: requires that every child be a node of the table. The source raises `KeyError` in the distance lookup at lab.py:146 only when the search actually extends a path to such a child. `GraphBuilder.BuildClosed` shows that the requirement holds whenever every roadway node is a known node.
- PathSearch.FindShortPathNodes: optimality assumes non-negative distances, which great-circle distances are.
- RouteQuery.FindShortPath: requires that both positions have a nearest node and that a route joins them, and, as for `FindShortPathNodes`, that every child is a node of the table. The source fails in each case the first two requirements exclude:
  - Both nearest nodes are `None`: the search pops the start `None`, which equals the goal, and returns `[None]` (lab.py:134-135). The lookup `node_data[None]` at lab.py:180 then raises `KeyError`.
  - Only the first is `None`: the search expands `None` and raises `KeyError` at lab.py:141.
  - Only the second is `None`, or no route joins the two nodes: the search returns `None` (lab.py:151), and the loop over it at lab.py:179 fails.
- Ways sharing an id: a later roadway with the same id replaces the earlier one in the way table (lab.py:50), but the earlier way's edges stay. `GraphBuilder.BuildRelevantNodes` states which nodes are then relevant: those of the last roadway with each id. OpenStreetMap way ids are unique, so the case does not arise on real data.
