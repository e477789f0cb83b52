/**
 * The raw map records the engine consumes, and the tag tests that decide
 * which ways are roads and in which direction they may be driven.
 */
module Osm {

  type NodeId = int
  type WayId = int

  /** A tag mapping, key to value. */
  type Tags = map<string, string>

  /** A latitude/longitude pair. The model never computes with the numbers. */
  datatype Coord = Coord(lat: real, lon: real)

  datatype NodeRecord = NodeRecord(id: NodeId, lat: real, lon: real, tags: Tags)

  datatype WayRecord = WayRecord(id: WayId, nodes: seq<NodeId>, tags: Tags)

  /** The highway types a car may be routed over. */
  const AllowedHighwayTypes: set<string> := {
    "motorway", "trunk", "primary", "secondary", "tertiary", "unclassified",
    "residential", "living_street", "motorway_link", "trunk_link",
    "primary_link", "secondary_link", "tertiary_link"
  }

  /** A way is kept only when it carries an allowed `highway` tag. */
  predicate IsRoadway(tags: Tags)
  {
    "highway" in tags && tags["highway"] in AllowedHighwayTypes
  }

  /** Only the exact value "yes" makes a way one-way. */
  predicate IsOneway(tags: Tags)
  {
    "oneway" in tags && tags["oneway"] == "yes"
  }
}
