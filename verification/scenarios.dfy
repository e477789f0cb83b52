/**
 * Small maps on which the general results pin down the answers exactly:
 * a residential street A-B-C, the same street made one-way, and a footway.
 */
module Scenarios {
  import opened Osm
  import opened RoadGraph
  import opened Options
  import opened GraphBuilder
  import opened PathSearch

  const A: NodeId := 1
  const B: NodeId := 2
  const C: NodeId := 3

  function Points(): seq<NodeRecord>
  {
    [NodeRecord(A, 0.0, 0.0, map[]), NodeRecord(B, 0.0, 1.0, map[]), NodeRecord(C, 0.0, 2.0, map[])]
  }

  function Street(tags: Tags): seq<WayRecord>
  {
    [WayRecord(10, [A, B, C], tags)]
  }

  const Residential: Tags := map["highway" := "residential"]
  const OnewayResidential: Tags := map["highway" := "residential", "oneway" := "yes"]
  const Footway: Tags := map["highway" := "footway"]

  lemma PointsKnown(tags: Tags)
    ensures WayNodesKnown(NodeIds(Points()), Street(tags))
    ensures WaysLookupsDefined(NodeIds(Points()), Street(tags))
    ensures Closed(Build(Points(), Street(tags)).nodes)
  {
    assert Points()[0].id == A && Points()[1].id == B && Points()[2].id == C;
    BuildClosed(Points(), Street(tags));
  }

  /** The node table built from the three points and the street. */
  function StreetGraph(tags: Tags): (g: NodeTable)
    ensures WellFormed(g) && Closed(g)
  {
    PointsKnown(tags);
    Build(Points(), Street(tags)).nodes
  }

  /** A single way record adds the edges of its node list if it is a roadway, and none otherwise. */
  lemma SingleWayRoadEdge(w: WayRecord, a: NodeId, b: NodeId)
    ensures RoadEdge([w], a, b) <==> IsRoadway(w.tags) && WayEdge(w.nodes, IsOneway(w.tags), a, b)
  {
    if IsRoadway(w.tags) && WayEdge(w.nodes, IsOneway(w.tags), a, b) {
      assert [w][0] == w;
    }
  }

  /** The consecutive pairs of the node list A, B, C. */
  lemma ThreeNodeWayEdge(oneway: bool, a: NodeId, b: NodeId)
    ensures WayEdge([A, B, C], oneway, a, b) <==>
              || (a == A && b == B) || (a == B && b == C)
              || (!oneway && ((a == B && b == A) || (a == C && b == B)))
  {
    var ns := [A, B, C];
    if (a == A && b == B) || (!oneway && a == B && b == A) {
      assert ns[0] == A && ns[1] == B;
    }
    if (a == B && b == C) || (!oneway && a == C && b == B) {
      assert ns[1] == B && ns[2] == C;
    }
  }

  /** The edges the street contributes, read off its node list. */
  lemma StreetEdges(tags: Tags, a: NodeId, b: NodeId)
    requires IsRoadway(tags)
    ensures Edge(StreetGraph(tags), a, b) <==>
              || (a == A && b == B) || (a == B && b == C)
              || (!IsOneway(tags) && ((a == B && b == A) || (a == C && b == B)))
  {
    PointsKnown(tags);
    BuildEdges(Points(), Street(tags), a, b);
    SingleWayRoadEdge(WayRecord(10, [A, B, C], tags), a, b);
    ThreeNodeWayEdge(IsOneway(tags), a, b);
  }

  /** In a table whose edges join only A with B and B with C, the one route from A to C repeating no node is A, B, C. */
  lemma OnlyRouteThroughB(g: NodeTable, p: seq<NodeId>)
    requires forall a, b :: Edge(g, a, b) ==>
               (a == A && b == B) || (a == B && b == C) || (a == B && b == A) || (a == C && b == B)
    requires IsRoute(g, p, A, C) && Distinct(p)
    ensures p == [A, B, C]
  {
    assert |p| >= 2;
    assert Edge(g, p[0], p[1]);
    assert |p| >= 3;
    assert Edge(g, p[1], p[2]);
    assert p[2] != p[0];
    assert p[2] == p[|p| - 1];
  }

  /** On a two-way street the only route from A to C that repeats no node is A, B, C. */
  lemma TwoWayStreetRoute(tags: Tags, p: seq<NodeId>)
    requires IsRoadway(tags) && !IsOneway(tags)
    requires IsRoute(StreetGraph(tags), p, A, C) && Distinct(p)
    ensures p == [A, B, C]
  {
    forall a, b | Edge(StreetGraph(tags), a, b)
      ensures (a == A && b == B) || (a == B && b == C) || (a == B && b == A) || (a == C && b == B)
    {
      StreetEdges(tags, a, b);
    }
    OnlyRouteThroughB(StreetGraph(tags), p);
  }

  /** On a one-way street nothing leads back from C, so C never reaches A. */
  lemma OnewayStreetHasNoWayBack(tags: Tags)
    requires IsRoadway(tags) && IsOneway(tags)
    ensures !Reachable(StreetGraph(tags), C, A)
  {
    var g := StreetGraph(tags);
    forall p | IsRoute(g, p, C, A)
      ensures false
    {
      StreetEdges(tags, p[0], p[1]);
    }
  }

  /** A footway is not a roadway, so it adds no edges at all. */
  lemma FootwayAddsNothing(a: NodeId, b: NodeId)
    ensures !Edge(StreetGraph(Footway), a, b)
  {
    assert !IsRoadway(Footway) by {
      assert Footway["highway"] == "footway";
      assert "footway" !in AllowedHighwayTypes;
    }
    PointsKnown(Footway);
    BuildEdges(Points(), Street(Footway), a, b);
  }

  /** The street's table holds exactly the three points. */
  lemma StreetNodes(tags: Tags)
    ensures StreetGraph(tags).data.Keys == {A, B, C}
  {
    assert Points()[0].id == A && Points()[1].id == B && Points()[2].id == C;
    assert NodeIds(Points()) == {A, B, C};
  }

  /** Along any street, one-way or not, A reaches C through B. */
  lemma StreetConnects(tags: Tags)
    requires IsRoadway(tags)
    ensures Reachable(StreetGraph(tags), A, C)
  {
    StreetEdges(tags, A, B);
    StreetEdges(tags, B, C);
    RouteThroughB(StreetGraph(tags));
  }

  /** Edges from A to B and from B to C make A, B, C a route from A to C. */
  lemma RouteThroughB(g: NodeTable)
    requires Edge(g, A, B) && Edge(g, B, C)
    ensures IsRoute(g, [A, B, C], A, C)
  {
  }

  /** The residential tags pass the highway test; only the second pair is one-way. */
  lemma ResidentialTags()
    ensures IsRoadway(Residential) && !IsOneway(Residential)
    ensures IsRoadway(OnewayResidential) && IsOneway(OnewayResidential)
  {
    assert Residential["highway"] == "residential";
    assert OnewayResidential["highway"] == "residential";
    assert OnewayResidential["oneway"] == "yes";
  }

  /** The search from A to C on the two-way street answers A, B, C, whatever the distances. */
  method TwoWayStreetQuery(dist: Distance) returns (r: Option<seq<NodeId>>)
    requires NonNegative(dist)
    ensures r == Some([A, B, C])
  {
    var g := StreetGraph(Residential);
    ResidentialTags();
    StreetNodes(Residential);
    StreetConnects(Residential);
    r := FindShortPathNodes(g, dist, A, C);
    TwoWayStreetRoute(Residential, r.value);
  }

  /** The search from C to A on the one-way street finds nothing. */
  method OnewayStreetQuery(dist: Distance) returns (r: Option<seq<NodeId>>)
    requires NonNegative(dist)
    ensures r == None
  {
    var g := StreetGraph(OnewayResidential);
    ResidentialTags();
    StreetNodes(OnewayResidential);
    OnewayStreetHasNoWayBack(OnewayResidential);
    r := FindShortPathNodes(g, dist, C, A);
  }
}
