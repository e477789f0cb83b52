/**
 * The in-memory road graph: the node table (id to node, with each node's
 * outgoing "children"), the table of retained ways, and the vocabulary of
 * edges, paths and path costs that the queries are stated in.
 */
module RoadGraph {
  import opened Osm

  /** A node as the builder stores it: position, tags and outgoing neighbours. */
  datatype Node = Node(loc: Coord, tags: Tags, children: seq<NodeId>)

  /**
   * The node table. `data` maps ids to nodes; `order` lists the ids in the
   * order they were first inserted, which is the order a scan over the table
   * visits them.
   */
  datatype NodeTable = NodeTable(order: seq<NodeId>, data: map<NodeId, Node>)

  /** A retained way: its node sequence and tags. */
  datatype WayEntry = WayEntry(nodes: seq<NodeId>, tags: Tags)

  /** What the builder returns: the node table and the retained ways by id. */
  datatype MapRep = MapRep(nodes: NodeTable, ways: map<WayId, WayEntry>)

  /** The great-circle distance between two positions, supplied by the caller. */
  type Distance = (Coord, Coord) -> real

  ghost predicate NonNegative(dist: Distance)
  {
    forall a, b :: dist(a, b) >= 0.0
  }

  predicate Distinct<T(==)>(s: seq<T>)
  {
    forall i, j :: 0 <= i < j < |s| ==> s[i] != s[j]
  }

  /** `order` lists every key of the table exactly once. */
  predicate WellFormed(t: NodeTable)
  {
    && Distinct(t.order)
    && (forall i :: 0 <= i < |t.order| ==> t.order[i] in t.data)
    && (forall id :: id in t.data ==> id in t.order)
  }

  /** `b` is one of `a`'s children. */
  predicate Edge(t: NodeTable, a: NodeId, b: NodeId)
  {
    a in t.data && b in t.data[a].children
  }

  /** No children list holds the same id twice. */
  predicate NoDuplicateChildren(t: NodeTable)
  {
    forall a :: a in t.data ==> Distinct(t.data[a].children)
  }

  /** Every child is itself a key of the table. */
  ghost predicate Closed(t: NodeTable)
  {
    forall a, b :: Edge(t, a, b) ==> b in t.data
  }

  /** The two tables agree on everything except the children lists. */
  ghost predicate SameNodes(t: NodeTable, t': NodeTable)
  {
    && t'.order == t.order
    && t'.data.Keys == t.data.Keys
    && (forall id :: id in t.data ==>
          t'.data[id].loc == t.data[id].loc && t'.data[id].tags == t.data[id].tags)
  }

  function Last<T>(s: seq<T>): T
    requires |s| > 0
  {
    s[|s| - 1]
  }

  /** A non-empty walk along children lists. */
  predicate IsPath(t: NodeTable, p: seq<NodeId>)
  {
    |p| > 0 && forall i :: 0 <= i < |p| - 1 ==> Edge(t, p[i], p[i + 1])
  }

  /** A walk from `a` to `b`. */
  predicate IsRoute(t: NodeTable, p: seq<NodeId>, a: NodeId, b: NodeId)
  {
    IsPath(t, p) && p[0] == a && Last(p) == b
  }

  ghost predicate Reachable(t: NodeTable, a: NodeId, b: NodeId)
  {
    exists p :: IsRoute(t, p, a, b)
  }

  /** The distance between the positions of two nodes of the table. */
  function Weight(t: NodeTable, dist: Distance, a: NodeId, b: NodeId): real
  {
    if a in t.data && b in t.data then dist(t.data[a].loc, t.data[b].loc) else 0.0
  }

  /** The sum of the weights of consecutive pairs of `p`. */
  function PathCost(t: NodeTable, dist: Distance, p: seq<NodeId>): real
  {
    if |p| <= 1 then 0.0
    else PathCost(t, dist, p[..|p| - 1]) + Weight(t, dist, p[|p| - 2], p[|p| - 1])
  }

  /** `p` is a route from `a` to `b` that costs no more than any other. */
  ghost predicate ShortestRoute(t: NodeTable, dist: Distance, p: seq<NodeId>, a: NodeId, b: NodeId)
  {
    && IsRoute(t, p, a, b)
    && forall q :: IsRoute(t, q, a, b) ==> PathCost(t, dist, p) <= PathCost(t, dist, q)
  }

  /** Every element of `s` is a key of the table. */
  predicate InTable(t: NodeTable, s: seq<NodeId>)
  {
    forall i :: 0 <= i < |s| ==> s[i] in t.data
  }

  /** The positions of the nodes of `p`, in order. */
  function Locations(t: NodeTable, p: seq<NodeId>): (r: seq<Coord>)
    requires InTable(t, p)
    ensures |r| == |p|
    ensures forall i :: 0 <= i < |p| ==> r[i] == t.data[p[i]].loc
  {
    if p == [] then [] else [t.data[p[0]].loc] + Locations(t, p[1..])
  }

  /** The ids that occur in some retained way. */
  function RelevantNodes(ways: map<WayId, WayEntry>): set<NodeId>
  {
    set w, n | w in ways && n in ways[w].nodes :: n
  }

  // ---------------------------------------------------------------------
  // Facts about paths and their costs
  // ---------------------------------------------------------------------

  /** With non-negative distances every step weighs at least zero. */
  lemma WeightNonNegative(t: NodeTable, dist: Distance, a: NodeId, b: NodeId)
    requires NonNegative(dist)
    ensures Weight(t, dist, a, b) >= 0.0
  {
  }

  /** A symmetric distance makes a step weigh the same in both directions. */
  lemma WeightSymmetric(t: NodeTable, dist: Distance, a: NodeId, b: NodeId)
    requires forall x, y :: dist(x, y) == dist(y, x)
    ensures Weight(t, dist, a, b) == Weight(t, dist, b, a)
  {
  }

  /** With non-negative distances no path costs less than zero. */
  lemma {:induction false} PathCostNonNegative(t: NodeTable, dist: Distance, p: seq<NodeId>)
    requires NonNegative(dist)
    ensures PathCost(t, dist, p) >= 0.0
    decreases |p|
  {
    if |p| > 1 {
      PathCostNonNegative(t, dist, p[..|p| - 1]);
    }
  }

  /** Extending a path by one node adds exactly the weight of the new step. */
  lemma PathCostAppend(t: NodeTable, dist: Distance, p: seq<NodeId>, u: NodeId)
    requires |p| > 0
    ensures PathCost(t, dist, p + [u]) == PathCost(t, dist, p) + Weight(t, dist, Last(p), u)
  {
    assert (p + [u])[..|p|] == p;
  }

  /** With non-negative distances no prefix of a path costs more than the path. */
  lemma {:induction false} PathCostPrefix(t: NodeTable, dist: Distance, p: seq<NodeId>, k: nat)
    requires NonNegative(dist)
    requires 0 < k <= |p|
    ensures PathCost(t, dist, p[..k]) <= PathCost(t, dist, p)
    decreases |p|
  {
    if k < |p| {
      assert p[..|p| - 1][..k] == p[..k];
      PathCostPrefix(t, dist, p[..|p| - 1], k);
    } else {
      assert p[..k] == p;
    }
  }

  /** Every non-empty prefix of a path is a path. */
  lemma PathPrefix(t: NodeTable, p: seq<NodeId>, k: nat)
    requires IsPath(t, p)
    requires 0 < k <= |p|
    ensures IsPath(t, p[..k])
  {
  }

  /** In a closed table every node after the first of a path is a key. */
  lemma PathNodesInTable(t: NodeTable, p: seq<NodeId>)
    requires Closed(t)
    requires IsPath(t, p)
    ensures forall i :: 0 < i < |p| ==> p[i] in t.data
  {
    forall i | 0 < i < |p|
      ensures p[i] in t.data
    {
      assert Edge(t, p[i - 1], p[i]);
    }
  }
}
