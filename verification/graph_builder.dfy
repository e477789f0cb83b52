/**
 * Building the road graph from node and way records: a first pass that
 * enters every node with an empty children list, and a second pass that keeps
 * the roadways and adds their adjacency, forward only on one-way roads and in
 * both directions otherwise, never adding an id to a children list twice.
 */
module GraphBuilder {
  import opened Osm
  import opened RoadGraph

  // ---------------------------------------------------------------------
  // First pass: the node table
  // ---------------------------------------------------------------------

  function NewNode(r: NodeRecord): Node
  {
    Node(Coord(r.lat, r.lon), r.tags, [])
  }

  /** The ids carried by the node records. */
  function NodeIds(recs: seq<NodeRecord>): set<NodeId>
  {
    set k | 0 <= k < |recs| :: recs[k].id
  }

  /** No later record carries the same id as `recs[k]`. */
  predicate LastWithId(recs: seq<NodeRecord>, k: nat)
    requires k < |recs|
  {
    forall j :: k < j < |recs| ==> recs[j].id != recs[k].id
  }

  /** The index of the first record carrying `id`, or `|recs|` when there is none. */
  function FirstIndex(recs: seq<NodeRecord>, id: NodeId): (k: nat)
    ensures k <= |recs|
    ensures k < |recs| ==> recs[k].id == id
    ensures forall j :: 0 <= j < k ==> recs[j].id != id
  {
    if recs == [] then 0
    else if recs[0].id == id then 0
    else 1 + FirstIndex(recs[1..], id)
  }

  /** Stores one record, replacing any node already stored under its id. */
  function PutNode(t: NodeTable, r: NodeRecord): (t': NodeTable)
    requires WellFormed(t)
    ensures WellFormed(t')
  {
    NodeTable(if r.id in t.data then t.order else t.order + [r.id],
              t.data[r.id := NewNode(r)])
  }

  /** The first pass over the node records. */
  function AddNodes(recs: seq<NodeRecord>): (t: NodeTable)
    ensures WellFormed(t)
    ensures t.data.Keys == NodeIds(recs)
    decreases |recs|
  {
    if recs == [] then NodeTable([], map[])
    else
      var pre := recs[..|recs| - 1];
      assert NodeIds(recs) == NodeIds(pre) + {recs[|recs| - 1].id} by {
        assert forall k :: 0 <= k < |pre| ==> pre[k] == recs[k];
      }
      PutNode(AddNodes(pre), recs[|recs| - 1])
  }

  /** `k` is the first index of a record carrying `id`. */
  lemma FirstIndexIs(recs: seq<NodeRecord>, id: NodeId, k: nat)
    requires k < |recs| && recs[k].id == id
    requires forall j :: 0 <= j < k ==> recs[j].id != id
    ensures FirstIndex(recs, id) == k
  {
  }

  /** Every node of the first pass starts with no children. */
  lemma {:induction false} AddNodesNoChildren(recs: seq<NodeRecord>)
    ensures forall id :: id in AddNodes(recs).data ==> AddNodes(recs).data[id].children == []
    decreases |recs|
  {
    if recs != [] {
      AddNodesNoChildren(recs[..|recs| - 1]);
    }
  }

  /** The node stored under an id is built from the last record carrying it. */
  lemma {:induction false} AddNodesLastRecordWins(recs: seq<NodeRecord>, k: nat)
    requires k < |recs| && LastWithId(recs, k)
    ensures AddNodes(recs).data[recs[k].id] == NewNode(recs[k])
    decreases |recs|
  {
    var n := |recs| - 1;
    var pre := recs[..n];
    assert AddNodes(recs) == PutNode(AddNodes(pre), recs[n]);
    if k < n {
      assert recs[k].id != recs[n].id;
      assert pre[k] == recs[k];
      assert LastWithId(pre, k);
      AddNodesLastRecordWins(pre, k);
    }
  }

  /** The table lists ids in the order of their first record. */
  lemma {:induction false} AddNodesFirstInsertionOrder(recs: seq<NodeRecord>)
    ensures forall i, j :: 0 <= i < j < |AddNodes(recs).order| ==>
              FirstIndex(recs, AddNodes(recs).order[i]) < FirstIndex(recs, AddNodes(recs).order[j])
    decreases |recs|
  {
    if recs != [] {
      var n := |recs| - 1;
      var pre := recs[..n];
      var r := recs[n];
      AddNodesFirstInsertionOrder(pre);
      var t0 := AddNodes(pre);
      var t := AddNodes(recs);
      assert t == PutNode(t0, r);
      forall i, j | 0 <= i < j < |t.order|
        ensures FirstIndex(recs, t.order[i]) < FirstIndex(recs, t.order[j])
      {
        if j < |t0.order| {
          FirstIndexOfEarlierId(recs, t0.order[i]);
          FirstIndexOfEarlierId(recs, t0.order[j]);
        } else {
          FirstIndexOfEarlierId(recs, t0.order[i]);
          FirstIndexOfNewId(recs);
        }
      }
    }
  }

  /** An id already stored before the last record keeps its first index. */
  lemma FirstIndexOfEarlierId(recs: seq<NodeRecord>, id: NodeId)
    requires |recs| > 0
    requires id in AddNodes(recs[..|recs| - 1]).data
    ensures FirstIndex(recs, id) == FirstIndex(recs[..|recs| - 1], id) < |recs| - 1
  {
    var pre := recs[..|recs| - 1];
    assert id in NodeIds(pre);
    var k := FirstIndex(pre, id);
    assert recs[k] == pre[k];
    FirstIndexIs(recs, id, k);
  }

  /** An id first stored by the last record has the last index as its first. */
  lemma FirstIndexOfNewId(recs: seq<NodeRecord>)
    requires |recs| > 0
    requires recs[|recs| - 1].id !in AddNodes(recs[..|recs| - 1]).data
    ensures FirstIndex(recs, recs[|recs| - 1].id) == |recs| - 1
  {
    var pre := recs[..|recs| - 1];
    forall j | 0 <= j < |pre|
      ensures recs[j].id != recs[|recs| - 1].id
    {
      assert recs[j] == pre[j];
      assert pre[j].id in NodeIds(pre);
    }
    FirstIndexIs(recs, recs[|recs| - 1].id, |recs| - 1);
  }

  // ---------------------------------------------------------------------
  // Second pass: adjacency of one way
  // ---------------------------------------------------------------------

  /**
   * Appends `b` to `a`'s children unless it is already there. The result has
   * exactly the edges of `t` plus `a -> b`, and keeps children duplicate-free.
   */
  function AddChild(t: NodeTable, a: NodeId, b: NodeId): (t': NodeTable)
    requires a in t.data
    ensures SameNodes(t, t')
    ensures forall x, y {:trigger Edge(t', x, y)} :: Edge(t', x, y) <==> Edge(t, x, y) || (x == a && y == b)
    ensures NoDuplicateChildren(t) ==> NoDuplicateChildren(t')
  {
    var n := t.data[a];
    if b in n.children then t
    else t.(data := t.data[a := n.(children := n.children + [b])])
  }

  /**
   * Whether iteration `y` of the loop over a way of `len` nodes reads the
   * table entry of the way's node `y`: it does when a next node exists, and,
   * on a two-way road, also when a previous node exists.
   */
  predicate LooksUp(len: nat, oneway: bool, y: nat)
  {
    y + 1 < len || (!oneway && 1 <= y < len)
  }

  /** Every table lookup that processing the way makes finds its key. */
  predicate LookupsDefined(keys: set<NodeId>, ns: seq<NodeId>, oneway: bool)
  {
    forall y :: 0 <= y < |ns| && LooksUp(|ns|, oneway, y) ==> ns[y] in keys
  }

  /** The edges iteration `y` adds. */
  predicate StepEdge(ns: seq<NodeId>, oneway: bool, y: nat, a: NodeId, b: NodeId)
  {
    || (y + 1 < |ns| && a == ns[y] && b == ns[y + 1])
    || (!oneway && 1 <= y < |ns| && a == ns[y] && b == ns[y - 1])
  }

  /** The edges iterations `0` to `y - 1` add. */
  ghost predicate AddedBefore(ns: seq<NodeId>, oneway: bool, y: nat, a: NodeId, b: NodeId)
  {
    exists i :: 0 <= i < y && StepEdge(ns, oneway, i, a, b)
  }

  /**
   * The edges a way contributes: each consecutive pair forward, and on a
   * two-way road also backward.
   */
  ghost predicate WayEdge(ns: seq<NodeId>, oneway: bool, a: NodeId, b: NodeId)
  {
    exists i :: 0 <= i < |ns| - 1 &&
      ((ns[i] == a && ns[i + 1] == b) || (!oneway && ns[i] == b && ns[i + 1] == a))
  }

  /** Iteration `y`: the forward child first, then, on a two-way road, the backward one. */
  function Step(t: NodeTable, ns: seq<NodeId>, oneway: bool, y: nat): (t': NodeTable)
    requires y < |ns|
    requires LookupsDefined(t.data.Keys, ns, oneway)
    ensures SameNodes(t, t')
    ensures forall a, b {:trigger Edge(t', a, b)} :: Edge(t', a, b) <==> Edge(t, a, b) || StepEdge(ns, oneway, y, a, b)
    ensures NoDuplicateChildren(t) ==> NoDuplicateChildren(t')
  {
    var t1 := if y + 1 < |ns| then AddChild(t, ns[y], ns[y + 1]) else t;
    if !oneway && y >= 1 then AddChild(t1, ns[y], ns[y - 1]) else t1
  }

  /** The first `y` iterations of the loop over the way's nodes. */
  function AddWayUpTo(t: NodeTable, ns: seq<NodeId>, oneway: bool, y: nat): (t': NodeTable)
    requires y <= |ns|
    requires LookupsDefined(t.data.Keys, ns, oneway)
    ensures SameNodes(t, t')
    ensures NoDuplicateChildren(t) ==> NoDuplicateChildren(t')
  {
    if y == 0 then t
    else Step(AddWayUpTo(t, ns, oneway, y - 1), ns, oneway, y - 1)
  }

  /** The whole loop over the nodes of one retained way. */
  function AddWay(t: NodeTable, w: WayRecord): (t': NodeTable)
    requires LookupsDefined(t.data.Keys, w.nodes, IsOneway(w.tags))
    ensures SameNodes(t, t')
    ensures NoDuplicateChildren(t) ==> NoDuplicateChildren(t')
  {
    AddWayUpTo(t, w.nodes, IsOneway(w.tags), |w.nodes|)
  }

  lemma {:induction false} AddWayUpToEdges(t: NodeTable, ns: seq<NodeId>, oneway: bool, y: nat, a: NodeId, b: NodeId)
    requires y <= |ns|
    requires LookupsDefined(t.data.Keys, ns, oneway)
    ensures Edge(AddWayUpTo(t, ns, oneway, y), a, b) <==> Edge(t, a, b) || AddedBefore(ns, oneway, y, a, b)
    decreases y
  {
    if y > 0 {
      var z: nat := y - 1;
      AddWayUpToEdges(t, ns, oneway, z, a, b);
      AddWayUpToStep(t, ns, oneway, z, a, b);
      assert z + 1 == y;
    }
  }

  /** Iteration `z` adds its own edges to those of the iterations before it. */
  lemma AddWayUpToStep(t: NodeTable, ns: seq<NodeId>, oneway: bool, z: nat, a: NodeId, b: NodeId)
    requires z < |ns|
    requires LookupsDefined(t.data.Keys, ns, oneway)
    requires Edge(AddWayUpTo(t, ns, oneway, z), a, b) <==> Edge(t, a, b) || AddedBefore(ns, oneway, z, a, b)
    ensures Edge(AddWayUpTo(t, ns, oneway, z + 1), a, b) <==> Edge(t, a, b) || AddedBefore(ns, oneway, z + 1, a, b)
  {
    AddedBeforeSplit(ns, oneway, z + 1, a, b);
  }

  /** The edges of the first `y` iterations: those of the first `y - 1`, then iteration `y - 1`. */
  lemma AddedBeforeSplit(ns: seq<NodeId>, oneway: bool, y: nat, a: NodeId, b: NodeId)
    requires y > 0
    ensures AddedBefore(ns, oneway, y, a, b) <==>
            AddedBefore(ns, oneway, y - 1, a, b) || StepEdge(ns, oneway, y - 1, a, b)
  {
    if AddedBefore(ns, oneway, y, a, b) {
      var i :| 0 <= i < y && StepEdge(ns, oneway, i, a, b);
      if i < y - 1 {
        assert AddedBefore(ns, oneway, y - 1, a, b);
      }
    }
  }

  /** The iteration-by-iteration edges are exactly the way's forward and backward pairs. */
  lemma AddedBeforeEndIsWayEdge(ns: seq<NodeId>, oneway: bool, a: NodeId, b: NodeId)
    ensures AddedBefore(ns, oneway, |ns|, a, b) <==> WayEdge(ns, oneway, a, b)
  {
    if AddedBefore(ns, oneway, |ns|, a, b) {
      var i :| 0 <= i < |ns| && StepEdge(ns, oneway, i, a, b);
      if i + 1 < |ns| && a == ns[i] && b == ns[i + 1] {
        assert 0 <= i < |ns| - 1 && ns[i] == a && ns[i + 1] == b;
      } else {
        assert 0 <= i - 1 < |ns| - 1 && ns[i - 1] == b && ns[i] == a;
      }
    }
    if WayEdge(ns, oneway, a, b) {
      var i :| 0 <= i < |ns| - 1 &&
        ((ns[i] == a && ns[i + 1] == b) || (!oneway && ns[i] == b && ns[i + 1] == a));
      if ns[i] == a && ns[i + 1] == b {
        assert StepEdge(ns, oneway, i, a, b);
      } else {
        assert StepEdge(ns, oneway, i + 1, a, b);
      }
    }
  }

  /** Processing a retained way adds exactly its edges and nothing else. */
  lemma AddWayEdges(t: NodeTable, w: WayRecord)
    requires LookupsDefined(t.data.Keys, w.nodes, IsOneway(w.tags))
    ensures forall a, b :: Edge(AddWay(t, w), a, b) <==>
              Edge(t, a, b) || WayEdge(w.nodes, IsOneway(w.tags), a, b)
  {
    forall a, b
      ensures Edge(AddWay(t, w), a, b) <==> Edge(t, a, b) || WayEdge(w.nodes, IsOneway(w.tags), a, b)
    {
      AddWayUpToEdges(t, w.nodes, IsOneway(w.tags), |w.nodes|, a, b);
      AddedBeforeEndIsWayEdge(w.nodes, IsOneway(w.tags), a, b);
    }
  }

  /** A one-way road adds no edge that does not follow its node order. */
  lemma OnewayAddsForwardEdgesOnly(t: NodeTable, w: WayRecord, a: NodeId, b: NodeId)
    requires IsOneway(w.tags)
    requires LookupsDefined(t.data.Keys, w.nodes, true)
    requires Edge(AddWay(t, w), a, b) && !Edge(t, a, b)
    ensures exists i :: 0 <= i < |w.nodes| - 1 && w.nodes[i] == a && w.nodes[i + 1] == b
  {
    AddWayEdges(t, w);
  }

  /** Every retained road, one-way or not, adds each consecutive pair forward. */
  lemma AddsEveryForwardEdge(t: NodeTable, w: WayRecord)
    requires LookupsDefined(t.data.Keys, w.nodes, IsOneway(w.tags))
    ensures forall i :: 0 <= i < |w.nodes| - 1 ==> Edge(AddWay(t, w), w.nodes[i], w.nodes[i + 1])
  {
    AddWayEdges(t, w);
    forall i | 0 <= i < |w.nodes| - 1
      ensures Edge(AddWay(t, w), w.nodes[i], w.nodes[i + 1])
    {
      assert WayEdge(w.nodes, IsOneway(w.tags), w.nodes[i], w.nodes[i + 1]);
    }
  }

  /** A road that is not one-way adds each consecutive pair in both directions. */
  lemma TwoWayAddsBothDirections(t: NodeTable, w: WayRecord)
    requires !IsOneway(w.tags)
    requires LookupsDefined(t.data.Keys, w.nodes, false)
    ensures forall i :: 0 <= i < |w.nodes| - 1 ==>
              Edge(AddWay(t, w), w.nodes[i], w.nodes[i + 1]) &&
              Edge(AddWay(t, w), w.nodes[i + 1], w.nodes[i])
  {
    AddWayEdges(t, w);
    forall i | 0 <= i < |w.nodes| - 1
      ensures Edge(AddWay(t, w), w.nodes[i], w.nodes[i + 1])
      ensures Edge(AddWay(t, w), w.nodes[i + 1], w.nodes[i])
    {
      assert WayEdge(w.nodes, false, w.nodes[i], w.nodes[i + 1]);
      assert WayEdge(w.nodes, false, w.nodes[i + 1], w.nodes[i]);
    }
  }

  // ---------------------------------------------------------------------
  // Second pass: all ways
  // ---------------------------------------------------------------------

  /** Every lookup made while processing a retained way finds its key. */
  predicate WaysLookupsDefined(keys: set<NodeId>, recs: seq<WayRecord>)
  {
    forall k :: 0 <= k < |recs| && IsRoadway(recs[k].tags) ==>
      LookupsDefined(keys, recs[k].nodes, IsOneway(recs[k].tags))
  }

  /**
   * The second pass over the way records: each roadway is stored by id and its
   * adjacency added; every other way is skipped.
   */
  function AddWays(t0: NodeTable, recs: seq<WayRecord>): (m: MapRep)
    requires WaysLookupsDefined(t0.data.Keys, recs)
    ensures SameNodes(t0, m.nodes)
    ensures NoDuplicateChildren(t0) ==> NoDuplicateChildren(m.nodes)
    decreases |recs|
  {
    if recs == [] then MapRep(t0, map[])
    else
      var pre := recs[..|recs| - 1];
      var w := recs[|recs| - 1];
      assert WaysLookupsDefined(t0.data.Keys, pre) by {
        forall k | 0 <= k < |pre| ensures pre[k] == recs[k] { }
      }
      var m := AddWays(t0, pre);
      if IsRoadway(w.tags) then
        MapRep(AddWay(m.nodes, w), m.ways[w.id := WayEntry(w.nodes, w.tags)])
      else m
  }

  /** Node records become the node table, then way records add the adjacency. */
  function Build(nodeRecs: seq<NodeRecord>, wayRecs: seq<WayRecord>): (m: MapRep)
    requires WaysLookupsDefined(NodeIds(nodeRecs), wayRecs)
    ensures WellFormed(m.nodes)
    ensures m.nodes.data.Keys == NodeIds(nodeRecs)
    ensures NoDuplicateChildren(m.nodes)
  {
    var t0 := AddNodes(nodeRecs);
    AddNodesNoChildren(nodeRecs);
    AddWays(t0, wayRecs)
  }

  /** Some retained way among `recs` contributes the edge `a -> b`. */
  ghost predicate RoadEdge(recs: seq<WayRecord>, a: NodeId, b: NodeId)
  {
    exists k :: 0 <= k < |recs| && IsRoadway(recs[k].tags) &&
      WayEdge(recs[k].nodes, IsOneway(recs[k].tags), a, b)
  }

  /** The ways pass adds exactly the edges of the retained ways. */
  lemma {:induction false} AddWaysEdges(t0: NodeTable, recs: seq<WayRecord>, a: NodeId, b: NodeId)
    requires WaysLookupsDefined(t0.data.Keys, recs)
    ensures Edge(AddWays(t0, recs).nodes, a, b) <==> Edge(t0, a, b) || RoadEdge(recs, a, b)
    decreases |recs|
  {
    if recs != [] {
      var n: nat := |recs| - 1;
      var pre := recs[..n];
      var w := recs[n];
      assert WaysLookupsDefined(t0.data.Keys, pre) by {
        forall k | 0 <= k < |pre| ensures pre[k] == recs[k] { }
      }
      AddWaysEdges(t0, pre, a, b);
      var m := AddWays(t0, pre);
      RoadEdgeSplit(recs, a, b);
      if IsRoadway(w.tags) {
        AddWayEdges(m.nodes, w);
      }
    }
  }

  /** The retained-way edges of `recs`: those of all but the last way, then the last. */
  lemma RoadEdgeSplit(recs: seq<WayRecord>, a: NodeId, b: NodeId)
    requires |recs| > 0
    ensures RoadEdge(recs, a, b) <==>
            RoadEdge(recs[..|recs| - 1], a, b) ||
            (IsRoadway(recs[|recs| - 1].tags) &&
             WayEdge(recs[|recs| - 1].nodes, IsOneway(recs[|recs| - 1].tags), a, b))
  {
    var pre := recs[..|recs| - 1];
    if RoadEdge(recs, a, b) {
      var k :| 0 <= k < |recs| && IsRoadway(recs[k].tags) &&
        WayEdge(recs[k].nodes, IsOneway(recs[k].tags), a, b);
      if k < |pre| {
        assert pre[k] == recs[k];
      }
    }
    if RoadEdge(pre, a, b) {
      var k :| 0 <= k < |pre| && IsRoadway(pre[k].tags) &&
        WayEdge(pre[k].nodes, IsOneway(pre[k].tags), a, b);
      assert pre[k] == recs[k];
    }
  }

  /**
   * The built graph has an edge `a -> b` exactly when some retained way
   * contributes it; ways without an allowed highway tag contribute nothing.
   */
  lemma BuildEdges(nodeRecs: seq<NodeRecord>, wayRecs: seq<WayRecord>, a: NodeId, b: NodeId)
    requires WaysLookupsDefined(NodeIds(nodeRecs), wayRecs)
    ensures Edge(Build(nodeRecs, wayRecs).nodes, a, b) <==> RoadEdge(wayRecs, a, b)
  {
    AddNodesNoChildren(nodeRecs);
    AddWaysEdges(AddNodes(nodeRecs), wayRecs, a, b);
  }

  /** Every node of every retained way is a key of the node table. */
  predicate WayNodesKnown(keys: set<NodeId>, recs: seq<WayRecord>)
  {
    forall k, i :: 0 <= k < |recs| && IsRoadway(recs[k].tags) && 0 <= i < |recs[k].nodes| ==>
      recs[k].nodes[i] in keys
  }

  /** Consistent records make every lookup of the ways pass succeed. */
  lemma KnownNodesDefineLookups(keys: set<NodeId>, recs: seq<WayRecord>)
    requires WayNodesKnown(keys, recs)
    ensures WaysLookupsDefined(keys, recs)
  {
  }

  /** A retained-way edge ends at a node of some retained way. */
  lemma RoadEdgeTargetKnown(keys: set<NodeId>, recs: seq<WayRecord>, a: NodeId, b: NodeId)
    requires WayNodesKnown(keys, recs)
    requires RoadEdge(recs, a, b)
    ensures a in keys && b in keys
  {
    var k :| 0 <= k < |recs| && IsRoadway(recs[k].tags) &&
      WayEdge(recs[k].nodes, IsOneway(recs[k].tags), a, b);
    var ns := recs[k].nodes;
    var i :| 0 <= i < |ns| - 1 &&
      ((ns[i] == a && ns[i + 1] == b) || (!IsOneway(recs[k].tags) && ns[i] == b && ns[i + 1] == a));
    assert ns[i] in keys && ns[i + 1] in keys;
  }

  /** When the records are consistent, every child is itself a node of the table. */
  lemma BuildClosed(nodeRecs: seq<NodeRecord>, wayRecs: seq<WayRecord>)
    requires WayNodesKnown(NodeIds(nodeRecs), wayRecs)
    ensures WaysLookupsDefined(NodeIds(nodeRecs), wayRecs)
    ensures Closed(Build(nodeRecs, wayRecs).nodes)
  {
    KnownNodesDefineLookups(NodeIds(nodeRecs), wayRecs);
    var g := Build(nodeRecs, wayRecs).nodes;
    forall a, b | Edge(g, a, b)
      ensures b in g.data
    {
      BuildEdges(nodeRecs, wayRecs, a, b);
      RoadEdgeTargetKnown(NodeIds(nodeRecs), wayRecs, a, b);
    }
  }

  // ---------------------------------------------------------------------
  // The table of retained ways
  // ---------------------------------------------------------------------

  /** `recs[k]` is a roadway and no later roadway carries its id. */
  predicate LastRoadwayWithId(recs: seq<WayRecord>, k: nat)
    requires k < |recs|
  {
    IsRoadway(recs[k].tags) &&
    forall j :: k < j < |recs| && IsRoadway(recs[j].tags) ==> recs[j].id != recs[k].id
  }

  /** The entry stored under a way id comes from the last roadway with that id. */
  lemma {:induction false} AddWaysStoresLastRoadway(t0: NodeTable, recs: seq<WayRecord>, k: nat)
    requires WaysLookupsDefined(t0.data.Keys, recs)
    requires k < |recs| && LastRoadwayWithId(recs, k)
    ensures recs[k].id in AddWays(t0, recs).ways
    ensures AddWays(t0, recs).ways[recs[k].id] == WayEntry(recs[k].nodes, recs[k].tags)
    decreases |recs|
  {
    var n: nat := |recs| - 1;
    var pre := recs[..n];
    assert WaysLookupsDefined(t0.data.Keys, pre) by {
      forall j | 0 <= j < |pre| ensures pre[j] == recs[j] { }
    }
    if k < n {
      assert pre[k] == recs[k];
      assert LastRoadwayWithId(pre, k) by {
        forall j | k < j < |pre| ensures pre[j] == recs[j] { }
      }
      AddWaysStoresLastRoadway(t0, pre, k);
    }
  }

  /** Every stored way entry is a retained way record carrying that id. */
  lemma {:induction false} AddWaysEntryFromRoadway(t0: NodeTable, recs: seq<WayRecord>, id: WayId)
    requires WaysLookupsDefined(t0.data.Keys, recs)
    requires id in AddWays(t0, recs).ways
    ensures exists k :: 0 <= k < |recs| && IsRoadway(recs[k].tags) && recs[k].id == id &&
              AddWays(t0, recs).ways[id] == WayEntry(recs[k].nodes, recs[k].tags)
    decreases |recs|
  {
    var n: nat := |recs| - 1;
    var pre := recs[..n];
    var w := recs[n];
    assert WaysLookupsDefined(t0.data.Keys, pre) by {
      forall j | 0 <= j < |pre| ensures pre[j] == recs[j] { }
    }
    if !(IsRoadway(w.tags) && w.id == id) {
      AddWaysEntryFromRoadway(t0, pre, id);
      var k :| 0 <= k < |pre| && IsRoadway(pre[k].tags) && pre[k].id == id &&
        AddWays(t0, pre).ways[id] == WayEntry(pre[k].nodes, pre[k].tags);
      assert pre[k] == recs[k];
    }
  }

  /** Every roadway record is followed, at or after it, by the last roadway with its id. */
  lemma {:induction false} LastRoadwayAfter(recs: seq<WayRecord>, k: nat) returns (j: nat)
    requires k < |recs| && IsRoadway(recs[k].tags)
    ensures k <= j < |recs| && LastRoadwayWithId(recs, j) && recs[j].id == recs[k].id
    decreases |recs| - k
  {
    if LastRoadwayWithId(recs, k) {
      j := k;
    } else {
      var i :| k < i < |recs| && IsRoadway(recs[i].tags) && recs[i].id == recs[k].id;
      j := LastRoadwayAfter(recs, i);
    }
  }

  /**
   * The routable nodes: a node lies on a stored way exactly when it lies on
   * the last roadway record with some id.
   */
  lemma BuildRelevantNodes(nodeRecs: seq<NodeRecord>, wayRecs: seq<WayRecord>, x: NodeId)
    requires WaysLookupsDefined(NodeIds(nodeRecs), wayRecs)
    ensures x in RelevantNodes(Build(nodeRecs, wayRecs).ways) <==>
              exists k :: 0 <= k < |wayRecs| && LastRoadwayWithId(wayRecs, k) && x in wayRecs[k].nodes
  {
    var t0 := AddNodes(nodeRecs);
    var ways := Build(nodeRecs, wayRecs).ways;
    if x in RelevantNodes(ways) {
      var id :| id in ways && x in ways[id].nodes;
      AddWaysEntryFromRoadway(t0, wayRecs, id);
      var k :| 0 <= k < |wayRecs| && IsRoadway(wayRecs[k].tags) && wayRecs[k].id == id &&
        ways[id] == WayEntry(wayRecs[k].nodes, wayRecs[k].tags);
      var j := LastRoadwayAfter(wayRecs, k);
      AddWaysStoresLastRoadway(t0, wayRecs, j);
      assert x in wayRecs[j].nodes;
    }
    if k :| 0 <= k < |wayRecs| && LastRoadwayWithId(wayRecs, k) && x in wayRecs[k].nodes {
      AddWaysStoresLastRoadway(t0, wayRecs, k);
    }
  }

  /**
   * The built node table keeps each node's position and tags from the last
   * record with its id, and lists ids in the order of their first record.
   */
  lemma BuildNodes(nodeRecs: seq<NodeRecord>, wayRecs: seq<WayRecord>, k: nat)
    requires WaysLookupsDefined(NodeIds(nodeRecs), wayRecs)
    requires k < |nodeRecs| && LastWithId(nodeRecs, k)
    ensures Build(nodeRecs, wayRecs).nodes.data[nodeRecs[k].id].loc == Coord(nodeRecs[k].lat, nodeRecs[k].lon)
    ensures Build(nodeRecs, wayRecs).nodes.data[nodeRecs[k].id].tags == nodeRecs[k].tags
    ensures forall i, j :: 0 <= i < j < |Build(nodeRecs, wayRecs).nodes.order| ==>
              FirstIndex(nodeRecs, Build(nodeRecs, wayRecs).nodes.order[i]) <
              FirstIndex(nodeRecs, Build(nodeRecs, wayRecs).nodes.order[j])
  {
    AddNodesLastRecordWins(nodeRecs, k);
    AddNodesFirstInsertionOrder(nodeRecs);
  }
}
