/**
 * The nearest-node locator: for each of two query positions, the routable
 * node closest to it, scanning the node table in its insertion order and
 * keeping the first node that is strictly closer than the best so far.
 */
module NearestNode {
  import opened Osm
  import opened Options
  import opened RoadGraph

  /**
   * The initial "best distance so far". A node is only ever chosen when it is
   * strictly closer than this, so when every routable node is at least this
   * far away the locator finds nothing.
   */
  const InitialMinDistance: real := 100000000000.0

  /** The distance from a query position to a node of the table. */
  function DistanceTo(t: NodeTable, dist: Distance, loc: Coord, x: NodeId): real
    requires x in t.data
  {
    dist(loc, t.data[x].loc)
  }

  /**
   * `s[k]` is the node the scan over `s` keeps: it is in `rel`, closer than
   * the initial bound, strictly closer than every earlier node of `rel`, and
   * no farther than every later one.
   */
  ghost predicate FirstNearestAt(t: NodeTable, rel: set<NodeId>, dist: Distance, loc: Coord,
                                 s: seq<NodeId>, k: int)
    requires InTable(t, s)
    requires 0 <= k < |s|
  {
    && s[k] in rel
    && DistanceTo(t, dist, loc, s[k]) < InitialMinDistance
    && (forall i :: 0 <= i < k && s[i] in rel ==>
          DistanceTo(t, dist, loc, s[k]) < DistanceTo(t, dist, loc, s[i]))
    && (forall i :: k < i < |s| && s[i] in rel ==>
          DistanceTo(t, dist, loc, s[k]) <= DistanceTo(t, dist, loc, s[i]))
  }

  /**
   * `r` is the answer for the scan `s`: `None` when no node of `s` in `rel`
   * is closer than the initial bound, otherwise the first nearest one.
   */
  ghost predicate IsNearest(t: NodeTable, rel: set<NodeId>, dist: Distance, loc: Coord,
                            s: seq<NodeId>, r: Option<NodeId>)
    requires InTable(t, s)
  {
    match r
    case None =>
      forall i :: 0 <= i < |s| && s[i] in rel ==> DistanceTo(t, dist, loc, s[i]) >= InitialMinDistance
    case Some(n) =>
      exists k :: 0 <= k < |s| && s[k] == n && FirstNearestAt(t, rel, dist, loc, s, k)
  }

  /** The scan state: the best node so far and its distance. */
  datatype Best = Best(node: Option<NodeId>, min: real)

  /** The scan over `s` for one query position, one node at a time. */
  function Scan(t: NodeTable, rel: set<NodeId>, dist: Distance, loc: Coord, s: seq<NodeId>): (b: Best)
    requires InTable(t, s)
    ensures b.node.None? ==> b.min == InitialMinDistance
    ensures b.node.Some? ==> b.node.value in t.data && b.min == DistanceTo(t, dist, loc, b.node.value)
    decreases |s|
  {
    if s == [] then Best(None, InitialMinDistance)
    else
      var pre := s[..|s| - 1];
      var x := s[|s| - 1];
      var b := Scan(t, rel, dist, loc, pre);
      if x in rel && DistanceTo(t, dist, loc, x) < b.min then Best(Some(x), DistanceTo(t, dist, loc, x))
      else b
  }

  /** The scan keeps the first nearest node, or none when nothing beats the initial bound. */
  lemma {:induction false} ScanIsNearest(t: NodeTable, rel: set<NodeId>, dist: Distance, loc: Coord, s: seq<NodeId>)
    requires InTable(t, s)
    ensures IsNearest(t, rel, dist, loc, s, Scan(t, rel, dist, loc, s).node)
    decreases |s|
  {
    if s != [] {
      var n: nat := |s| - 1;
      var pre := s[..n];
      var x := s[n];
      assert forall i :: 0 <= i < n ==> pre[i] == s[i];
      ScanIsNearest(t, rel, dist, loc, pre);
      var b := Scan(t, rel, dist, loc, pre);
      if x in rel && DistanceTo(t, dist, loc, x) < b.min {
        assert FirstNearestAt(t, rel, dist, loc, s, n) by {
          if b.node.Some? {
            var k :| 0 <= k < n && pre[k] == b.node.value && FirstNearestAt(t, rel, dist, loc, pre, k);
            assert b.min == DistanceTo(t, dist, loc, s[k]);
          }
        }
      } else if b.node.Some? {
        var k :| 0 <= k < n && pre[k] == b.node.value && FirstNearestAt(t, rel, dist, loc, pre, k);
        assert FirstNearestAt(t, rel, dist, loc, s, k);
      }
    }
  }

  /** The answer the locator gives for one query position. */
  function Nearest(m: MapRep, dist: Distance, loc: Coord): (r: Option<NodeId>)
    requires WellFormed(m.nodes)
    ensures IsNearest(m.nodes, RelevantNodes(m.ways), dist, loc, m.nodes.order, r)
  {
    ScanIsNearest(m.nodes, RelevantNodes(m.ways), dist, loc, m.nodes.order);
    Scan(m.nodes, RelevantNodes(m.ways), dist, loc, m.nodes.order).node
  }

  /** The contract determines the answer: at most one value meets it. */
  lemma NearestIsUnique(t: NodeTable, rel: set<NodeId>, dist: Distance, loc: Coord,
                        s: seq<NodeId>, r1: Option<NodeId>, r2: Option<NodeId>)
    requires InTable(t, s)
    requires IsNearest(t, rel, dist, loc, s, r1) && IsNearest(t, rel, dist, loc, s, r2)
    ensures r1 == r2
  {
    if r1.Some? && r2.Some? {
      var k1 :| 0 <= k1 < |s| && s[k1] == r1.value && FirstNearestAt(t, rel, dist, loc, s, k1);
      var k2 :| 0 <= k2 < |s| && s[k2] == r2.value && FirstNearestAt(t, rel, dist, loc, s, k2);
    }
  }

  /**
   * With every routable node closer than the initial bound (great-circle
   * distances on Earth are), the locator finds a node exactly when some node
   * of the table lies on a retained way.
   */
  lemma NearestFoundIffRoutableNode(m: MapRep, dist: Distance, loc: Coord)
    requires WellFormed(m.nodes)
    requires forall x :: x in m.nodes.data ==> DistanceTo(m.nodes, dist, loc, x) < InitialMinDistance
    ensures Nearest(m, dist, loc).Some? <==> exists x :: x in m.nodes.data && x in RelevantNodes(m.ways)
  {
    var t := m.nodes;
    if x :| x in t.data && x in RelevantNodes(m.ways) {
      var i :| 0 <= i < |t.order| && t.order[i] == x;
    }
  }

  /**
   * The routable node ids: the node lists of the stored ways, concatenated
   * one way at a time and then turned into a set.
   */
  method CollectRelevantNodes(ways: map<WayId, WayEntry>) returns (r: set<NodeId>)
    ensures forall n :: n in r <==> exists w :: w in ways && n in ways[w].nodes
    ensures r == RelevantNodes(ways)
  {
    var acc: seq<NodeId> := [];
    var rest := ways.Keys;
    while rest != {}
      invariant rest <= ways.Keys
      invariant forall n :: n in acc <==> exists w :: w in ways && w !in rest && n in ways[w].nodes
      decreases |rest|
    {
      // A set other than {} has an element.
      if forall x :: x !in rest {
        assert false;
      }
      var w :| w in rest;
      acc := acc + ways[w].nodes;
      rest := rest - {w};
    }
    r := set n | n in acc;
    assert forall n :: n in RelevantNodes(ways) <==> exists w :: w in ways && n in ways[w].nodes;
  }

  /**
   * The single pass over the node table that answers both query positions,
   * keeping for each the first node strictly closer than the best so far.
   */
  method FindNearestNodes(m: MapRep, dist: Distance, loc1: Coord, loc2: Coord)
    returns (n1: Option<NodeId>, n2: Option<NodeId>)
    requires WellFormed(m.nodes)
    ensures n1 == Nearest(m, dist, loc1) && n2 == Nearest(m, dist, loc2)
    ensures IsNearest(m.nodes, RelevantNodes(m.ways), dist, loc1, m.nodes.order, n1)
    ensures IsNearest(m.nodes, RelevantNodes(m.ways), dist, loc2, m.nodes.order, n2)
  {
    var t := m.nodes;
    var relevant := CollectRelevantNodes(m.ways);
    var min1, min2 := InitialMinDistance, InitialMinDistance;
    n1, n2 := None, None;
    var i := 0;
    while i < |t.order|
      invariant 0 <= i <= |t.order|
      invariant Best(n1, min1) == Scan(t, relevant, dist, loc1, t.order[..i])
      invariant Best(n2, min2) == Scan(t, relevant, dist, loc2, t.order[..i])
    {
      var x := t.order[i];
      assert t.order[..i + 1][..i] == t.order[..i];
      if x in relevant {
        var d1 := dist(loc1, t.data[x].loc);
        var d2 := dist(loc2, t.data[x].loc);
        if d1 < min1 {
          min1 := d1;
          n1 := Some(x);
        }
        if d2 < min2 {
          min2 := d2;
          n2 := Some(x);
        }
      }
      i := i + 1;
    }
    assert t.order[..i] == t.order;
  }
}
