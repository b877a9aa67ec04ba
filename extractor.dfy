/**
 * The whole extractor over one thinned skeleton mask: one seed per
 * component, then the nodes of every component, then the edges traced
 * between them by the multi-source flood.
 */
module Extractor {
  import opened Grid
  import opened Topology
  import opened Nodes
  import opened Edges
  import Seeds

  /** No two nodes sit on the same pixel. */
  ghost predicate PixelsApart(ns: seq<Node>) {
    forall i, j :: 0 <= i < j < |ns| ==> ns[i].pos != ns[j].pos
  }

  /** The components walked for different seeds share no pixel. */
  ghost predicate OrdersDisjoint(orders: seq<seq<Pos>>) {
    forall i, j, p :: 0 <= i < j < |orders| && p in orders[i] ==> p !in orders[j]
  }

  /** Whatever a skeleton pixel reaches is a skeleton pixel. */
  lemma ReachableIsFg(m: Mask, s: Pos, q: Pos)
    requires m.Valid() && m.IsFg(s) && Reachable(m, s, q)
    ensures m.IsFg(q)
  {
    var path :| WalkBetween(m, path, s, q);
    if |path| > 1 {
      assert StepAt(m, path, |path| - 2);
    }
  }

  /** Two skeleton pixels that reach a common pixel reach each other. */
  lemma {:induction false} ReachableThrough(m: Mask, s1: Pos, s2: Pos, p: Pos)
    requires m.Valid() && m.IsFg(s1) && m.IsFg(s2) && Reachable(m, s1, p) && Reachable(m, s2, p)
    ensures Reachable(m, s1, s2)
  {
    var r := set q | q in FgSet(m) && Reachable(m, s1, q);
    forall a, b | a in r && Adjacent(a, b) && m.IsFg(b)
      ensures b in r
    {
      ReachableStep(m, s1, a, b);
    }
    ReachableIsFg(m, s1, p);
    ReachableSymmetric(m, s2, p);
    ClosedContainsReachable(m, r, p, s2);
  }

  /** The walks from separated seeds cover disjoint sets of pixels. */
  lemma SeparatedOrdersDisjoint(m: Mask, seeds: seq<Pos>, orders: seq<seq<Pos>>)
    requires m.Valid() && Seeds.Separated(m, seeds) && |orders| == |seeds|
    requires forall k :: 0 <= k < |seeds| ==> m.IsFg(seeds[k]) && ScannedFrom(m, seeds[k], orders[k])
    ensures OrdersDisjoint(orders)
  {
    forall i, j, p | 0 <= i < j < |orders| && p in orders[i]
      ensures p !in orders[j]
    {
      if p in orders[j] {
        ReachableThrough(m, seeds[i], seeds[j], p);
        assert false;
      }
    }
  }

  /** The classified nodes of a walk that scores each pixel once sit on distinct pixels of it. */
  lemma {:induction false} ClassifiedNodesApart(m: Mask, order: seq<Pos>)
    requires m.Valid() && Seeds.Distinct(order)
    ensures PixelsApart(ClassifiedNodes(m, order))
  {
    if order != [] {
      var init, last := order[..|order| - 1], order[|order| - 1];
      assert order == init + [last];
      assert Seeds.Distinct(init);
      ClassifiedNodesApart(m, init);
      ClassifiedNodesSpec(m, init);
      var a, ns := ClassifiedNodes(m, init), ClassifiedNodes(m, order);
      forall i, j | 0 <= i < j < |ns|
        ensures ns[i].pos != ns[j].pos
      {
        if j >= |a| {
          assert ns[i] in a && ns[j].pos == last;
        } else {
          assert ns[i] == a[i] && ns[j] == a[j];
        }
      }
    }
  }

  /** The nodes of one component sit on distinct pixels of it, and there is at least one. */
  lemma ComponentNodesApart(m: Mask, order: seq<Pos>)
    requires m.Valid() && order != [] && Seeds.Distinct(order)
    ensures PixelsApart(ComponentNodes(m, order)) && ComponentNodes(m, order) != []
    ensures forall n :: n in ComponentNodes(m, order) ==> n.pos in order
  {
    ClassifiedNodesApart(m, order);
    ClassifiedNodesSpec(m, order);
  }

  /** Pixel `p` belongs to one of the walked components. */
  ghost predicate InSome(orders: seq<seq<Pos>>, p: Pos) {
    exists k :: 0 <= k < |orders| && p in orders[k]
  }

  lemma InSomeExtend(orders: seq<seq<Pos>>, p: Pos)
    requires orders != [] && (InSome(orders[..|orders| - 1], p) || p in orders[|orders| - 1])
    ensures InSome(orders, p)
  {
    if p !in orders[|orders| - 1] {
      var k :| 0 <= k < |orders| - 1 && p in orders[..|orders| - 1][k];
      assert p in orders[k];
    }
  }

  /** Every node sits on a pixel of some component, and every component contributes one or more. */
  lemma {:induction false} AllNodesInComponents(m: Mask, orders: seq<seq<Pos>>)
    requires m.Valid() && forall k :: 0 <= k < |orders| ==> orders[k] != [] && Seeds.Distinct(orders[k])
    ensures |AllNodes(m, orders)| >= |orders|
    ensures forall n :: n in AllNodes(m, orders) ==> InSome(orders, n.pos)
  {
    if orders != [] {
      var init, last := orders[..|orders| - 1], orders[|orders| - 1];
      AllNodesInComponents(m, init);
      ComponentNodesApart(m, last);
      assert AllNodes(m, orders) == AllNodes(m, init) + ComponentNodes(m, last);
      forall n | n in AllNodes(m, orders)
        ensures InSome(orders, n.pos)
      {
        InSomeExtend(orders, n.pos);
      }
    }
  }

  /** A pixel of an earlier component is not a pixel of the last one. */
  lemma LastDisjoint(orders: seq<seq<Pos>>, p: Pos)
    requires orders != [] && OrdersDisjoint(orders) && InSome(orders[..|orders| - 1], p)
    ensures p !in orders[|orders| - 1]
  {
    var k :| 0 <= k < |orders| - 1 && p in orders[..|orders| - 1][k];
    assert p in orders[k];
  }

  /** The nodes of all components sit on distinct pixels. */
  lemma {:induction false} AllNodesApart(m: Mask, orders: seq<seq<Pos>>)
    requires m.Valid() && OrdersDisjoint(orders)
    requires forall k :: 0 <= k < |orders| ==> orders[k] != [] && Seeds.Distinct(orders[k])
    ensures PixelsApart(AllNodes(m, orders))
  {
    if orders != [] {
      var init, last := orders[..|orders| - 1], orders[|orders| - 1];
      assert OrdersDisjoint(init);
      AllNodesApart(m, init);
      AllNodesInComponents(m, init);
      ComponentNodesApart(m, last);
      var a, c := AllNodes(m, init), ComponentNodes(m, last);
      assert AllNodes(m, orders) == a + c;
      forall x, y | x in a && y in c
        ensures x.pos != y.pos
      {
        LastDisjoint(orders, x.pos);
      }
      AppendApart(a, c);
    }
  }

  /** Two lists of nodes on distinct pixels, with no pixel in common, join into one. */
  lemma AppendApart(a: seq<Node>, c: seq<Node>)
    requires PixelsApart(a) && PixelsApart(c)
    requires forall x, y :: x in a && y in c ==> x.pos != y.pos
    ensures PixelsApart(a + c)
  {
    var ns := a + c;
    forall i, j | 0 <= i < j < |ns|
      ensures ns[i].pos != ns[j].pos
    {
      if i >= |a| {
        assert ns[i] == c[i - |a|] && ns[j] == c[j - |a|];
      } else if j < |a| {
        assert ns[i] == a[i] && ns[j] == a[j];
      } else {
        assert ns[i] in a && ns[j] in c;
      }
    }
  }

  /** Every node found sits on a skeleton pixel. */
  lemma NodesOnSkeleton(m: Mask, seeds: seq<Pos>, orders: seq<seq<Pos>>)
    requires m.Valid() && |orders| == |seeds| && forall k :: 0 <= k < |orders| ==> orders[k] != []
    requires forall k :: 0 <= k < |seeds| ==> m.IsFg(seeds[k]) && ScannedFrom(m, seeds[k], orders[k])
    requires forall n :: n in AllNodes(m, orders) ==> InSome(orders, n.pos)
    ensures forall n :: n in AllNodes(m, orders) ==> m.IsFg(n.pos)
  {
    forall n | n in AllNodes(m, orders)
      ensures m.IsFg(n.pos)
    {
      var j :| 0 <= j < |orders| && n.pos in orders[j];
      ReachableIsFg(m, seeds[j], n.pos);
    }
  }

  /** The tracing origins of nodes on distinct skeleton pixels start a flood with distinct targets. */
  lemma OriginsSeeded(m: Mask, nodes: seq<Node>, queue: seq<BfsData>)
    requires m.Valid() && queue == Origins(0, nodes) && PixelsApart(nodes)
    requires forall n :: n in nodes ==> m.IsFg(n.pos)
    ensures Seeded(m, nodes, queue) && DistinctTargets(queue)
  {
    forall i | 0 <= i < |queue|
      ensures m.IsFg(queue[i].pos)
    {
      assert nodes[i] in nodes;
    }
  }

  /**
   * What the seeder and the node pass leave for the edge tracer: nodes on
   * distinct skeleton pixels, present exactly when the skeleton is not
   * empty, and one origin per node to start the flood from.
   */
  lemma NodePassReady(m: Mask, seeds: seq<Pos>, orders: seq<seq<Pos>>, nodes: seq<Node>, queue: seq<BfsData>)
    requires m.Valid() && (forall k :: 0 <= k < |seeds| ==> m.IsFg(seeds[k]))
    requires Seeds.Separated(m, seeds) && (seeds == [] <==> FgSet(m) == {})
    requires |orders| == |seeds| && forall k :: 0 <= k < |seeds| ==> ScannedFrom(m, seeds[k], orders[k])
    requires forall k :: 0 <= k < |orders| ==> orders[k] != []
    requires nodes == AllNodes(m, orders) && queue == Origins(0, nodes)
    ensures forall n :: n in nodes ==> m.IsFg(n.pos)
    ensures PixelsApart(nodes) && (nodes == [] <==> FgSet(m) == {})
    ensures Seeded(m, nodes, queue) && DistinctTargets(queue)
  {
    SeparatedOrdersDisjoint(m, seeds, orders);
    AllNodesApart(m, orders);
    AllNodesInComponents(m, orders);
    NodesOnSkeleton(m, seeds, orders);
    OriginsSeeded(m, nodes, queue);
  }

  /**
   * The extractor. `seeds` holds one skeleton pixel per component, no two
   * reaching each other, and `orders[k]` is the breadth-first walk from
   * `seeds[k]`. The nodes are exactly AllNodes of those walks: each pixel
   * whose score is not 2, with the kind its score calls for, and a Waypoint
   * at the last pixel of a component that has none. Every node sits on its
   * own skeleton pixel, there are nodes exactly when the skeleton is not
   * empty, and every edge joins two nodes lower id first, running through
   * neighbouring skeleton pixels from the lower node's pixel to the higher
   * node's pixel.
   */
  method Extract(m: Mask) returns (g: Graph, ghost seeds: seq<Pos>, ghost orders: seq<seq<Pos>>)
    requires m.Valid()
    ensures g.Valid()
    ensures forall k :: 0 <= k < |seeds| ==> m.IsFg(seeds[k])
    ensures Seeds.Separated(m, seeds) && forall p :: m.IsFg(p) ==> Seeds.Covered(m, seeds, p)
    ensures |orders| == |seeds| && forall k :: 0 <= k < |seeds| ==> orders[k] == BfsOrder(m, seeds[k])
    ensures forall k :: 0 <= k < |orders| ==> orders[k] != []
    ensures g.nodes == AllNodes(m, orders)
    ensures forall n :: n in g.nodes ==> m.IsFg(n.pos)
    ensures PixelsApart(g.nodes)
    ensures g.nodes == [] <==> FgSet(m) == {}
    ensures forall k :: 0 <= k < |g.edges| ==> EdgeOk(m, g.nodes, g.edges[k], true)
  {
    var seedPoints, removed := Seeds.FindSeedPoints(m);
    g := new Graph();
    var bfsQueue;
    bfsQueue, orders := FindNodes(m, seedPoints, g, []);
    assert g.nodes == AllNodes(m, orders) && bfsQueue == Origins(0, g.nodes);
    NodePassReady(m, seedPoints, orders, g.nodes, bfsQueue);
    FindEdges(m, g, bfsQueue);
    seeds := seedPoints;
  }
}
