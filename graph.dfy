/**
 * The topology graph the extractor fills in. Its container lives outside the
 * extractor and is used only through adding a node, which hands back a fresh
 * id, and adding an edge between two existing ids.
 */
module Topology {
  import opened Grid

  datatype NodeType = Endpoint | Intersection | Waypoint

  /** A landmark at a pixel of the skeleton. */
  datatype Node = Node(kind: NodeType, pos: Pos)

  /**
   * An arc of the skeleton between nodes `from` and `to`, with the pixels it
   * passes through listed from `from`'s side to `to`'s side.
   */
  datatype Edge = Edge(from: nat, to: nat, waypoints: seq<Pos>)

  class Graph {
    /** Node `id` is `nodes[id]`, so ids are fresh and distinct. */
    var nodes: seq<Node>
    var edges: seq<Edge>

    /** Every edge joins two nodes that exist. */
    ghost predicate Valid()
      reads this
    {
      forall e :: e in edges ==> e.from < |nodes| && e.to < |nodes|
    }

    constructor ()
      ensures Valid() && nodes == [] && edges == []
    {
      nodes := [];
      edges := [];
    }

    method AddNode(n: Node) returns (id: nat)
      requires Valid()
      modifies this
      ensures Valid()
      ensures id == |old(nodes)| && nodes == old(nodes) + [n] && edges == old(edges)
    {
      id := |nodes|;
      nodes := nodes + [n];
    }

    /** Adding an edge fails only for a missing id, which the extractor treats as fatal. */
    method AddEdge(from: nat, to: nat, waypoints: seq<Pos>)
      requires Valid() && from < |nodes| && to < |nodes|
      modifies this
      ensures Valid()
      ensures nodes == old(nodes) && edges == old(edges) + [Edge(from, to, waypoints)]
    {
      edges := edges + [Edge(from, to, waypoints)];
    }
  }
}
