/**
 * The top-level query: snap both positions to their nearest road nodes,
 * search for a shortest route between those nodes, and return the
 * positions of the route's nodes.
 */
module RouteQuery {
  import opened Osm
  import opened Options
  import opened RoadGraph
  import opened NearestNode
  import opened PathSearch

  /** A node the nearest-node scan returns is a key of the table. */
  lemma NearestIsKnown(m: MapRep, dist: Distance, loc: Coord)
    requires WellFormed(m.nodes)
    ensures Nearest(m, dist, loc).Some? ==> Nearest(m, dist, loc).value in m.nodes.data
  {
    var r := Nearest(m, dist, loc);
    if r.Some? {
      var k :| 0 <= k < |m.nodes.order| && m.nodes.order[k] == r.value
               && FirstNearestAt(m.nodes, RelevantNodes(m.ways), dist, loc, m.nodes.order, k);
    }
  }

  /**
   * The positions along a shortest route between the nodes nearest to
   * `loc1` and `loc2`. Both positions must have a nearest node and the two
   * nodes must be joined by some route; otherwise the query fails. The
   * ghost `nodes` is the route the positions are read from.
   */
  method FindShortPath(m: MapRep, dist: Distance, loc1: Coord, loc2: Coord)
    returns (route: seq<Coord>, ghost nodes: seq<NodeId>)
    requires WellFormed(m.nodes) && Closed(m.nodes)
    requires NonNegative(dist)
    requires Nearest(m, dist, loc1).Some? && Nearest(m, dist, loc2).Some?
    requires Reachable(m.nodes, Nearest(m, dist, loc1).value, Nearest(m, dist, loc2).value)
    ensures Nearest(m, dist, loc1).value in m.nodes.data && Nearest(m, dist, loc2).value in m.nodes.data
    ensures |route| > 0
    ensures route[0] == m.nodes.data[Nearest(m, dist, loc1).value].loc
    ensures route[|route| - 1] == m.nodes.data[Nearest(m, dist, loc2).value].loc
    ensures ShortestRoute(m.nodes, dist, nodes, Nearest(m, dist, loc1).value, Nearest(m, dist, loc2).value)
    ensures Distinct(nodes)
    ensures InTable(m.nodes, nodes)
    ensures route == Locations(m.nodes, nodes)
  {
    var t := m.nodes;
    var n1, n2 := FindNearestNodes(m, dist, loc1, loc2);
    NearestIsKnown(m, dist, loc1);
    NearestIsKnown(m, dist, loc2);
    var found := FindShortPathNodes(t, dist, n1.value, n2.value);
    var p := found.value;
    PathNodesInTable(t, p);
    var locs: seq<Coord> := [];
    var i := 0;
    while i < |p|
      invariant 0 <= i <= |p|
      invariant |locs| == i
      invariant forall j :: 0 <= j < i ==> locs[j] == t.data[p[j]].loc
    {
      locs := locs + [t.data[p[i]].loc];
      i := i + 1;
    }
    assert locs == Locations(t, p);
    return locs, p;
  }
}
