/**
 * The node classifier: a breadth-first walk over each seed's component that
 * scores every pixel, adds an Endpoint or Intersection node where the score
 * says so (or one Waypoint when nothing in the component qualifies), and
 * queues a tracing origin for every node it adds.
 */
module Nodes {
  import opened Grid
  import opened Scoring
  import opened Topology
  import Seeds

  /**
   * A queued visit for edge tracing: pixel `pos`, reached from `prevPos`, on
   * behalf of node `rootNode`. A node's origin has `pos == prevPos`.
   */
  datatype BfsData = BfsData(rootNode: nat, pos: Pos, prevPos: Pos)

  /** The kind of node a score calls for: none for a pass-through pixel. */
  function Classify(score: int): Option<NodeType> {
    if score <= 1 then Some(Endpoint)
    else if score >= 3 then Some(Intersection)
    else None
  }

  /** The node, if any, that the classifier adds at pixel `p`. */
  function NodeAt(m: Mask, p: Pos): (r: seq<Node>)
    requires m.Valid()
    ensures |r| <= 1
    ensures r == [] <==> PixelScore(m, p.x, p.y) == 2
    ensures forall n :: n in r ==> n.pos == p && n.kind != Waypoint
  {
    match Classify(PixelScore(m, p.x, p.y))
    case Some(kind) => [Node(kind, p)]
    case None => []
  }

  /** A pixel ringed by eight skeleton neighbours scores 0 and becomes an Endpoint. */
  lemma FullRingIsEndpoint(m: Mask, x: nat, y: nat)
    requires m.Valid() && Interior(m, x, y)
    requires forall i :: 0 <= i < 8 ==> RimCell(m, x, y, i) == Some(true)
    ensures NodeAt(m, Pos(x, y)) == [Node(Endpoint, Pos(x, y))]
  {
    FullRingScoresZero(m, x, y);
  }

  /** The nodes added, in order, for the pixels of `order` that are classified. */
  function ClassifiedNodes(m: Mask, order: seq<Pos>): seq<Node>
    requires m.Valid()
  {
    if order == [] then []
    else ClassifiedNodes(m, order[..|order| - 1]) + NodeAt(m, order[|order| - 1])
  }

  /**
   * All nodes added for a component scored in the order `order`: its
   * classified pixels, or a single Waypoint at the last pixel scored.
   */
  function ComponentNodes(m: Mask, order: seq<Pos>): seq<Node>
    requires m.Valid() && order != []
  {
    var classified := ClassifiedNodes(m, order);
    if classified == [] then [Node(Waypoint, order[|order| - 1])] else classified
  }

  /** The tracing origins for nodes `ns`, whose ids start at `base`. */
  function Origins(base: nat, ns: seq<Node>): seq<BfsData> {
    seq(|ns|, k requires 0 <= k < |ns| => BfsData(base + k, ns[k].pos, ns[k].pos))
  }

  /** The nodes added for several components in turn. */
  function AllNodes(m: Mask, orders: seq<seq<Pos>>): seq<Node>
    requires m.Valid() && forall k :: 0 <= k < |orders| ==> orders[k] != []
  {
    if orders == [] then []
    else AllNodes(m, orders[..|orders| - 1]) + ComponentNodes(m, orders[|orders| - 1])
  }

  /**
   * Every node added for a component sits on one of its scored pixels. A
   * classified node has the kind its pixel's score calls for, and the
   * classified nodes are exactly one per scored pixel whose score is not 2.
   */
  lemma {:induction false} ClassifiedNodesSpec(m: Mask, order: seq<Pos>)
    requires m.Valid()
    ensures Seeds.Distinct(order) ==> |ClassifiedNodes(m, order)| == |set p | p in order && PixelScore(m, p.x, p.y) != 2|
    ensures forall n :: n in ClassifiedNodes(m, order) ==>
      n.pos in order && Classify(PixelScore(m, n.pos.x, n.pos.y)) == Some(n.kind)
  {
    if order != [] {
      var init, last := order[..|order| - 1], order[|order| - 1];
      ClassifiedNodesSpec(m, init);
      assert order == init + [last];
      assert ClassifiedNodes(m, order) == ClassifiedNodes(m, init) + NodeAt(m, last);
      if Seeds.Distinct(order) {
        ClassifiedPixelsSnoc(m, init, last);
      }
    }
  }

  /** Scoring one more, unseen pixel adds it to the classified pixels exactly when its score is not 2. */
  lemma ClassifiedPixelsSnoc(m: Mask, init: seq<Pos>, last: Pos)
    requires m.Valid() && Seeds.Distinct(init + [last])
    ensures Seeds.Distinct(init)
    ensures |set p | p in init + [last] && PixelScore(m, p.x, p.y) != 2|
      == |set p | p in init && PixelScore(m, p.x, p.y) != 2| + |NodeAt(m, last)|
  {
    var order := init + [last];
    assert forall i :: 0 <= i < |init| ==> init[i] == order[i];
    assert last == order[|init|];
    assert last !in init;
    var before := set p | p in init && PixelScore(m, p.x, p.y) != 2;
    var after := set p | p in order && PixelScore(m, p.x, p.y) != 2;
    if PixelScore(m, last.x, last.y) != 2 {
      assert after == before + {last};
    } else {
      assert after == before;
    }
  }

  /**
   * A component gets max(1, classified pixels) nodes; it gets a Waypoint,
   * placed at the last pixel scored, exactly when none of its pixels is
   * classified.
   */
  lemma ComponentNodesSpec(m: Mask, order: seq<Pos>)
    requires m.Valid() && order != []
    ensures |ComponentNodes(m, order)| == if |ClassifiedNodes(m, order)| == 0 then 1 else |ClassifiedNodes(m, order)|
    ensures (exists n :: n in ComponentNodes(m, order) && n.kind == Waypoint) <==>
      forall p :: p in order ==> PixelScore(m, p.x, p.y) == 2
    ensures forall n :: n in ComponentNodes(m, order) && n.kind == Waypoint ==> n.pos == order[|order| - 1]
  {
    ClassifiedNodesSpec(m, order);
    if forall p :: p in order ==> PixelScore(m, p.x, p.y) == 2 {
      NoClassifiedNodes(m, order);
    } else {
      var p :| p in order && PixelScore(m, p.x, p.y) != 2;
      SomeClassifiedNode(m, order, p);
    }
  }

  lemma {:induction false} NoClassifiedNodes(m: Mask, order: seq<Pos>)
    requires m.Valid() && forall p :: p in order ==> PixelScore(m, p.x, p.y) == 2
    ensures ClassifiedNodes(m, order) == []
  {
    if order != [] {
      NoClassifiedNodes(m, order[..|order| - 1]);
    }
  }

  lemma {:induction false} SomeClassifiedNode(m: Mask, order: seq<Pos>, p: Pos)
    requires m.Valid() && p in order && PixelScore(m, p.x, p.y) != 2
    ensures Node(Classify(PixelScore(m, p.x, p.y)).value, p) in ClassifiedNodes(m, order)
  {
    var init, last := order[..|order| - 1], order[|order| - 1];
    assert order == init + [last];
    if p != last {
      SomeClassifiedNode(m, init, p);
    }
  }

  lemma ClassifiedNodesSnoc(m: Mask, order: seq<Pos>, p: Pos)
    requires m.Valid()
    ensures ClassifiedNodes(m, order + [p]) == ClassifiedNodes(m, order) + NodeAt(m, p)
  {
    assert (order + [p])[..|order|] == order;
  }

  lemma OriginOfOne(base: nat, n: Node)
    ensures Origins(base, [n]) == [BfsData(base, n.pos, n.pos)]
  {
    assert Origins(base, [n])[0] == BfsData(base, n.pos, n.pos);
  }

  lemma OriginsAppend(base: nat, xs: seq<Node>, ys: seq<Node>)
    ensures Origins(base, xs + ys) == Origins(base, xs) + Origins(base + |xs|, ys)
  {
  }

  /**
   * Adding nodes `ys` after nodes `xs`, and queueing the origins of each in
   * turn, adds `xs + ys` and queues their origins.
   */
  lemma NodesGrow(nodes0: seq<Node>, xs: seq<Node>, ys: seq<Node>, nodesMid: seq<Node>, nodes: seq<Node>,
                  before: seq<BfsData>, queueMid: seq<BfsData>, queue: seq<BfsData>)
    requires nodesMid == nodes0 + xs && nodes == nodesMid + ys
    requires queueMid == before + Origins(|nodes0|, xs) && queue == queueMid + Origins(|nodesMid|, ys)
    ensures nodes == nodes0 + (xs + ys) && queue == before + Origins(|nodes0|, xs + ys)
  {
    OriginsAppend(|nodes0|, xs, ys);
  }

  /** Every pixel in `visited` is in `order` or in `queue`, and no pixel is in both or twice. */
  ghost predicate BfsFrontier(visited: set<Pos>, order: seq<Pos>, queue: seq<Pos>)
  {
    && (forall p :: p in visited <==> p in order || p in queue)
    && Seeds.Distinct(order + queue)
  }

  /**
   * The pixels a pass over the first `k` rim offsets of `point` queues, in
   * rim order: each skeleton neighbour not visited before the pass and not
   * already queued by it.
   */
  function NewNeighbors(m: Mask, point: Pos, visited: set<Pos>, k: nat): seq<Pos>
    requires m.Valid() && k <= 8
  {
    if k == 0 then []
    else
      var prev := NewNeighbors(m, point, visited, k - 1);
      match NeighboringPos(point, m.width, m.height, k - 1)
      case Some(n) => if m.rows[n.y][n.x] && n !in visited && n !in prev then prev + [n] else prev
      case None => prev
  }

  /**
   * A rim pass queues distinct, unvisited skeleton neighbours of `point`, and
   * every skeleton neighbour on the offsets it has looked at ends up visited
   * or queued.
   */
  lemma {:induction false} NewNeighborsSpec(m: Mask, point: Pos, visited: set<Pos>, k: nat)
    requires m.Valid() && k <= 8
    ensures var added := NewNeighbors(m, point, visited, k);
      && Seeds.Distinct(added)
      && (forall q :: q in added ==> q !in visited && m.IsFg(q) && Adjacent(point, q))
      && (forall j :: 0 <= j < k && NeighboringPos(point, m.width, m.height, j).Some?
            && m.IsFg(NeighboringPos(point, m.width, m.height, j).value)
            ==> NeighboringPos(point, m.width, m.height, j).value in visited
                || NeighboringPos(point, m.width, m.height, j).value in added)
  {
    if k > 0 {
      NewNeighborsSpec(m, point, visited, k - 1);
      var prev := NewNeighbors(m, point, visited, k - 1);
      var n := NeighboringPos(point, m.width, m.height, k - 1);
      if n.Some? && m.rows[n.value.y][n.value.x] && n.value !in visited && n.value !in prev {
        DistinctAppend(prev, [n.value]);
      }
    }
  }

  /** After a whole rim pass every skeleton neighbour of `point` is visited or queued. */
  lemma RimPassCovers(m: Mask, point: Pos, visited: set<Pos>)
    requires m.Valid()
    ensures forall q :: Adjacent(point, q) && m.IsFg(q) ==> q in visited || q in NewNeighbors(m, point, visited, 8)
  {
    NewNeighborsSpec(m, point, visited, 8);
    forall q | Adjacent(point, q) && m.IsFg(q)
      ensures q in visited || q in NewNeighbors(m, point, visited, 8)
    {
      var j := RimIndexOf(point, q, m.width, m.height);
    }
  }

  /**
   * One pass over the rim of `point`: every skeleton neighbour not yet
   * visited is marked visited and queued, in rim order.
   */
  method EnqueueNeighbors(m: Mask, point: Pos, visited0: set<Pos>, queue0: seq<Pos>)
    returns (visited: set<Pos>, queue: seq<Pos>, ghost added: seq<Pos>)
    requires m.Valid()
    ensures added == NewNeighbors(m, point, visited0, 8)
    ensures queue == queue0 + added && Seeds.Distinct(added)
    ensures forall q :: q in added ==> q !in visited0 && m.IsFg(q) && Adjacent(point, q)
    ensures forall q :: q in visited <==> q in visited0 || q in added
    ensures visited == visited0 + (set q | q in added)
    ensures forall q :: Adjacent(point, q) && m.IsFg(q) ==> q in visited
  {
    visited, queue := visited0, queue0;
    added := [];
    for i := 0 to 8
      invariant added == NewNeighbors(m, point, visited0, i)
      invariant queue == queue0 + added
      invariant forall q :: q in visited <==> q in visited0 || q in added
    {
      match NeighboringPos(point, m.width, m.height, i) {
        case Some(neighbor) =>
          if m.rows[neighbor.y][neighbor.x] && neighbor !in visited {
            queue := queue + [neighbor];
            visited := visited + {neighbor};
            added := added + [neighbor];
          }
        case None =>
      }
    }
    NewNeighborsSpec(m, point, visited0, 8);
    RimPassCovers(m, point, visited0);
  }

  /**
   * The state of the walk over `seed`'s component: `order` holds the pixels
   * scored so far and `pending` those queued; all of them were reached from
   * the seed, and every skeleton neighbour of a scored pixel is visited.
   */
  ghost predicate ScanState(m: Mask, seed: Pos, visited: set<Pos>, order: seq<Pos>, pending: seq<Pos>)
    requires m.Valid()
  {
    && BfsFrontier(visited, order, pending)
    && (order == [] ==> pending == [seed])
    && (order != [] ==> order[0] == seed)
    && (forall p :: p in visited ==> Reachable(m, seed, p))
    && (forall p, q :: p in order && Adjacent(p, q) && m.IsFg(q) ==> q in visited)
    && (forall p :: p in visited ==> p == seed || m.IsFg(p))
  }

  /** Scoring the head of the queue and queueing its new neighbours keeps the walk's state. */
  lemma ScanStep(m: Mask, seed: Pos, visited0: set<Pos>, order0: seq<Pos>, pending0: seq<Pos>,
                 visited: set<Pos>, pending: seq<Pos>, added: seq<Pos>)
    requires m.Valid() && ScanState(m, seed, visited0, order0, pending0) && pending0 != []
    requires pending == pending0[1..] + added && Seeds.Distinct(added)
    requires forall q :: q in added ==> q !in visited0 && m.IsFg(q) && Adjacent(pending0[0], q)
    requires forall q :: q in visited <==> q in visited0 || q in added
    requires forall q :: Adjacent(pending0[0], q) && m.IsFg(q) ==> q in visited
    ensures ScanState(m, seed, visited, order0 + [pending0[0]], pending)
    ensures Unseen(m, visited) < Unseen(m, visited0)
      || (Unseen(m, visited) == Unseen(m, visited0) && |pending| < |pending0|)
  {
    var point := pending0[0];
    var order := order0 + [point];
    assert point in visited0;
    assert order + pending == (order0 + pending0) + added;
    DistinctAppend(order0 + pending0, added);
    assert BfsFrontier(visited, order, pending) by {
      forall p ensures p in visited <==> p in order || p in pending {
        assert p in order0 + pending0 <==> p in order0 || p in pending0;
        assert p in pending0 <==> p == point || p in pending0[1..];
      }
    }
    forall q | q in added ensures Reachable(m, seed, q) {
      ReachableStep(m, seed, point, q);
    }
    forall p, q | p in order && Adjacent(p, q) && m.IsFg(q) ensures q in visited {
      if p != point {
        assert p in order0;
      }
    }
    if added != [] {
      UnvisitedShrinks(FgSet(m), visited0, visited, added[0]);
    } else {
      assert visited == visited0;
    }
  }

  /** How many skeleton pixels the walk has not visited yet. */
  function Unseen(m: Mask, visited: set<Pos>): nat
    requires m.Valid()
  {
    |FgSet(m) - visited|
  }

  lemma UnvisitedShrinks(all: set<Pos>, visited0: set<Pos>, visited: set<Pos>, q: Pos)
    requires visited0 <= visited && q in all && q in visited && q !in visited0
    ensures |all - visited| < |all - visited0|
  {
    var a, b := all - visited, all - visited0;
    assert b == a + (b - a) && a !! (b - a);
    assert q in b - a;
    assert |b - a| >= 1;
  }

  lemma DistinctAppend(xs: seq<Pos>, ys: seq<Pos>)
    requires Seeds.Distinct(xs) && Seeds.Distinct(ys) && forall y :: y in ys ==> y !in xs
    ensures Seeds.Distinct(xs + ys)
  {
    var s := xs + ys;
    forall i, j | 0 <= i < j < |s| ensures s[i] != s[j] {
      if j >= |xs| && i < |xs| {
        assert s[j] in ys && s[i] in xs;
      } else if i >= |xs| {
        assert s[i] == ys[i - |xs|] && s[j] == ys[j - |xs|];
      }
    }
  }

  lemma ScanStart(m: Mask, seed: Pos)
    requires m.Valid()
    ensures ScanState(m, seed, {seed}, [], [seed])
  {
    ReachableRefl(m, seed);
    assert [] + [seed] == [seed];
  }

  /** Once the queue is empty, the pixels scored are exactly those reachable from the seed. */
  lemma ScanComplete(m: Mask, seed: Pos, visited: set<Pos>, order: seq<Pos>)
    requires m.Valid() && ScanState(m, seed, visited, order, [])
    ensures order != [] && order[0] == seed && Seeds.Distinct(order)
    ensures forall p :: p in order <==> Reachable(m, seed, p)
  {
    assert order + [] == order;
    forall p ensures p in order <==> Reachable(m, seed, p) {
      if Reachable(m, seed, p) {
        ClosedContainsReachable(m, visited, seed, p);
      }
    }
  }

  /**
   * The pixels a walk in state (`visited`, `order`, `pending`) has scored
   * once its queue runs dry: the queue is first in, first out, and each
   * pixel scored queues its new skeleton neighbours in rim order.
   */
  ghost function WalkFrom(m: Mask, visited: set<Pos>, order: seq<Pos>, pending: seq<Pos>): seq<Pos>
    requires m.Valid()
    decreases Unseen(m, visited), |pending|
  {
    if pending == [] then order
    else
      var added := NewNeighbors(m, pending[0], visited, 8);
      RimPassProgress(m, pending[0], visited);
      WalkFrom(m, visited + (set q | q in added), order + [pending[0]], pending[1..] + added)
  }

  /** A rim pass either marks a skeleton pixel that was not visited, or queues nothing. */
  lemma RimPassProgress(m: Mask, point: Pos, visited: set<Pos>)
    requires m.Valid()
    ensures var added := NewNeighbors(m, point, visited, 8);
      if added == [] then visited + (set q | q in added) == visited
      else Unseen(m, visited + (set q | q in added)) < Unseen(m, visited)
  {
    var added := NewNeighbors(m, point, visited, 8);
    NewNeighborsSpec(m, point, visited, 8);
    if added != [] {
      assert added[0] in FgSet(m);
      UnvisitedShrinks(FgSet(m), visited, visited + (set q | q in added), added[0]);
    }
  }

  /** One round of the walk keeps its state. */
  lemma WalkStep(m: Mask, seed: Pos, visited: set<Pos>, order: seq<Pos>, pending: seq<Pos>)
    requires m.Valid() && ScanState(m, seed, visited, order, pending) && pending != []
    ensures var added := NewNeighbors(m, pending[0], visited, 8);
      ScanState(m, seed, visited + (set q | q in added), order + [pending[0]], pending[1..] + added)
  {
    var added := NewNeighbors(m, pending[0], visited, 8);
    NewNeighborsSpec(m, pending[0], visited, 8);
    RimPassCovers(m, pending[0], visited);
    ScanStep(m, seed, visited, order, pending, visited + (set q | q in added), pending[1..] + added, added);
  }

  /** The order in which the walk from `seed` scores the pixels of its component. */
  ghost function BfsOrder(m: Mask, seed: Pos): seq<Pos>
    requires m.Valid()
  {
    WalkFrom(m, {seed}, [], [seed])
  }

  /** A walk finishes having scored each pixel reachable from its seed once, the seed first. */
  lemma {:induction false} WalkFromScans(m: Mask, seed: Pos, visited: set<Pos>, order: seq<Pos>, pending: seq<Pos>)
    requires m.Valid() && ScanState(m, seed, visited, order, pending)
    ensures ScannedFrom(m, seed, WalkFrom(m, visited, order, pending))
    decreases Unseen(m, visited), |pending|
  {
    if pending == [] {
      ScanComplete(m, seed, visited, order);
    } else {
      var added := NewNeighbors(m, pending[0], visited, 8);
      WalkStep(m, seed, visited, order, pending);
      RimPassProgress(m, pending[0], visited);
      WalkFromScans(m, seed, visited + (set q | q in added), order + [pending[0]], pending[1..] + added);
    }
  }

  /**
   * The breadth-first order from `seed` starts at the seed and scores every
   * pixel reachable from it exactly once.
   */
  lemma BfsOrderSpec(m: Mask, seed: Pos)
    requires m.Valid()
    ensures ScannedFrom(m, seed, BfsOrder(m, seed))
  {
    ScanStart(m, seed);
    WalkFromScans(m, seed, {seed}, [], [seed]);
  }

  /**
   * Scores pixel `p` and, when it is an endpoint or an intersection, adds its
   * node and queues the node's tracing origin.
   */
  method ClassifyPixel(m: Mask, p: Pos, g: Graph, queue0: seq<BfsData>)
    returns (queue: seq<BfsData>, classified: bool)
    requires m.Valid() && g.Valid()
    modifies g
    ensures g.Valid() && g.edges == old(g.edges)
    ensures g.nodes == old(g.nodes) + NodeAt(m, p)
    ensures queue == queue0 + Origins(|old(g.nodes)|, NodeAt(m, p))
    ensures classified <==> NodeAt(m, p) != []
  {
    var x, y := p.x, p.y;
    var score := PixelScore(m, x, y);
    queue := queue0;
    classified := false;
    if score <= 1 {
      var nodeId := g.AddNode(Node(Endpoint, Pos(x, y)));
      queue := queue + [BfsData(nodeId, Pos(x, y), Pos(x, y))];
      classified := true;
    } else if score >= 3 {
      var nodeId := g.AddNode(Node(Intersection, Pos(x, y)));
      queue := queue + [BfsData(nodeId, Pos(x, y), Pos(x, y))];
      classified := true;
    }
  }

  /** The component of `seed` ran over `order`: it starts at the seed and holds each reachable pixel once. */
  ghost predicate ScannedFrom(m: Mask, seed: Pos, order: seq<Pos>)
    requires m.Valid()
  {
    order != [] && order[0] == seed && Seeds.Distinct(order)
      && forall p :: p in order <==> Reachable(m, seed, p)
  }

  /** ClassifyPixel on the next pixel of the walk, stated over the whole walk so far. */
  method ClassifyNext(m: Mask, point: Pos, g: Graph, queue0: seq<BfsData>,
                      ghost order0: seq<Pos>, ghost nodes0: seq<Node>, ghost before: seq<BfsData>)
    returns (queue: seq<BfsData>, classified: bool)
    requires m.Valid() && g.Valid()
    requires g.nodes == nodes0 + ClassifiedNodes(m, order0)
    requires queue0 == before + Origins(|nodes0|, ClassifiedNodes(m, order0))
    modifies g
    ensures g.Valid() && g.edges == old(g.edges) && g.nodes == nodes0 + ClassifiedNodes(m, order0 + [point])
    ensures queue == before + Origins(|nodes0|, ClassifiedNodes(m, order0 + [point]))
    ensures classified <==> NodeAt(m, point) != []
    ensures |ClassifiedNodes(m, order0 + [point])| == |ClassifiedNodes(m, order0)| + if classified then 1 else 0
  {
    ghost var nodesMid := g.nodes;
    queue, classified := ClassifyPixel(m, point, g, queue0);
    ClassifiedNodesSnoc(m, order0, point);
    NodesGrow(nodes0, ClassifiedNodes(m, order0), NodeAt(m, point), nodesMid, g.nodes, before, queue0, queue);
  }

  /**
   * One round of the walk over a component: take the next queued pixel, score
   * it (adding its node if it is classified) and queue its unvisited
   * skeleton neighbours.
   */
  method ScanNext(m: Mask, ghost seed: Pos, g: Graph, queue0: seq<BfsData>, visited0: set<Pos>,
                  pending0: seq<Pos>, ghost order0: seq<Pos>, count0: nat, ghost nodes0: seq<Node>,
                  ghost before: seq<BfsData>)
    returns (queue: seq<BfsData>, visited: set<Pos>, pending: seq<Pos>, ghost order: seq<Pos>,
             point: Pos, count: nat)
    requires m.Valid() && g.Valid() && ScanState(m, seed, visited0, order0, pending0) && pending0 != []
    requires g.nodes == nodes0 + ClassifiedNodes(m, order0)
    requires queue0 == before + Origins(|nodes0|, ClassifiedNodes(m, order0))
    requires count0 == |ClassifiedNodes(m, order0)|
    modifies g
    ensures order == order0 + [point] && point == pending0[0] && point == order[|order| - 1]
    ensures g.Valid() && g.edges == old(g.edges) && g.nodes == nodes0 + ClassifiedNodes(m, order)
    ensures ScanState(m, seed, visited, order, pending)
    ensures WalkFrom(m, visited0, order0, pending0) == WalkFrom(m, visited, order, pending)
    ensures queue == before + Origins(|nodes0|, ClassifiedNodes(m, order))
    ensures count == |ClassifiedNodes(m, order)|
    ensures count == count0 + if NodeAt(m, point) != [] then 1 else 0
    ensures Unseen(m, visited) < Unseen(m, visited0)
      || (Unseen(m, visited) == Unseen(m, visited0) && |pending| < |pending0|)
  {
    point := pending0[0];
    pending := pending0[1..];
    var classified;
    queue, classified := ClassifyNext(m, point, g, queue0, order0, nodes0, before);
    ghost var added;
    visited, pending, added := EnqueueNeighbors(m, point, visited0, pending);
    ScanStep(m, seed, visited0, order0, pending0, visited, pending, added);
    assert WalkFrom(m, visited0, order0, pending0) == WalkFrom(m, visited, order0 + [point], pending);
    order := order0 + [point];
    count := if classified then count0 + 1 else count0;
  }

  /**
   * The breadth-first walk over one seed's component. `order` is the order in
   * which pixels are scored, BfsOrder(m, seed): each pixel reachable from the
   * seed exactly once, starting with the seed, which ends at `last`. The graph gains the
   * classified nodes of `order`, and the queue one origin per new node.
   */
  method WalkComponent(m: Mask, seed: Pos, g: Graph, queue0: seq<BfsData>)
    returns (queue: seq<BfsData>, ghost order: seq<Pos>, last: Pos, nodeCount: nat)
    requires m.Valid() && g.Valid()
    modifies g
    ensures g.Valid() && ScannedFrom(m, seed, order) && last == order[|order| - 1]
    ensures order == BfsOrder(m, seed)
    ensures g.nodes == old(g.nodes) + ClassifiedNodes(m, order) && g.edges == old(g.edges)
    ensures queue == queue0 + Origins(|old(g.nodes)|, ClassifiedNodes(m, order))
    ensures nodeCount == |ClassifiedNodes(m, order)|
  {
    ghost var nodes0 := g.nodes;
    var seedQueue := [seed];
    var visited := {seed};
    nodeCount := 0;
    last := seed;
    order := [];
    queue := queue0;
    ScanStart(m, seed);
    assert ClassifiedNodes(m, order) == [] && g.nodes == nodes0 + [] && queue == queue0 + [];
    while seedQueue != []
      invariant g.Valid() && g.edges == old(g.edges)
      invariant ScanState(m, seed, visited, order, seedQueue)
      invariant WalkFrom(m, visited, order, seedQueue) == BfsOrder(m, seed)
      invariant order != [] ==> last == order[|order| - 1]
      invariant g.nodes == nodes0 + ClassifiedNodes(m, order)
      invariant queue == queue0 + Origins(|nodes0|, ClassifiedNodes(m, order))
      invariant nodeCount == |ClassifiedNodes(m, order)|
      decreases Unseen(m, visited), |seedQueue|
    {
      queue, visited, seedQueue, order, last, nodeCount :=
        ScanNext(m, seed, g, queue, visited, seedQueue, order, nodeCount, nodes0, queue0);
    }
    assert order == WalkFrom(m, visited, order, seedQueue);
    BfsOrderSpec(m, seed);
  }

  /**
   * The node pass over one seed's component: the walk, then a single
   * Waypoint at the last pixel scored when no pixel was classified. The
   * graph gains ComponentNodes(order), and the queue one origin per new
   * node, carrying that node's id.
   */
  method ScanComponent(m: Mask, seed: Pos, g: Graph, queue0: seq<BfsData>)
    returns (queue: seq<BfsData>, ghost order: seq<Pos>)
    requires m.Valid() && g.Valid()
    modifies g
    ensures g.Valid() && ScannedFrom(m, seed, order) && order == BfsOrder(m, seed)
    ensures g.nodes == old(g.nodes) + ComponentNodes(m, order) && g.edges == old(g.edges)
    ensures queue == queue0 + Origins(|old(g.nodes)|, ComponentNodes(m, order))
  {
    var recentPoint, nodeCount;
    queue, order, recentPoint, nodeCount := WalkComponent(m, seed, g, queue0);
    if nodeCount > 0 {
      return;
    }
    ghost var base := |old(g.nodes)|;
    assert ClassifiedNodes(m, order) == [] && queue == queue0;
    assert ComponentNodes(m, order) == [Node(Waypoint, recentPoint)];
    OriginOfOne(base, Node(Waypoint, recentPoint));
    var nodeId := g.AddNode(Node(Waypoint, recentPoint));
    queue := queue + [BfsData(nodeId, recentPoint, recentPoint)];
  }

  lemma AllNodesSnoc(m: Mask, orders: seq<seq<Pos>>, order: seq<Pos>)
    requires m.Valid() && order != [] && forall k :: 0 <= k < |orders| ==> orders[k] != []
    ensures AllNodes(m, orders + [order]) == AllNodes(m, orders) + ComponentNodes(m, order)
  {
    assert (orders + [order])[..|orders|] == orders;
  }

  /** ScanComponent for the next seed, stated over all components scanned so far. */
  method ScanNextComponent(m: Mask, seed: Pos, g: Graph, queue0: seq<BfsData>, ghost orders0: seq<seq<Pos>>,
                           ghost nodes0: seq<Node>, ghost before: seq<BfsData>)
    returns (queue: seq<BfsData>, ghost order: seq<Pos>)
    requires m.Valid() && g.Valid() && forall k :: 0 <= k < |orders0| ==> orders0[k] != []
    requires g.nodes == nodes0 + AllNodes(m, orders0)
    requires queue0 == before + Origins(|nodes0|, AllNodes(m, orders0))
    modifies g
    ensures ScannedFrom(m, seed, order) && order == BfsOrder(m, seed)
    ensures g.Valid() && g.edges == old(g.edges) && g.nodes == nodes0 + AllNodes(m, orders0 + [order])
    ensures queue == before + Origins(|nodes0|, AllNodes(m, orders0 + [order]))
  {
    ghost var nodesMid := g.nodes;
    queue, order := ScanComponent(m, seed, g, queue0);
    AllNodesSnoc(m, orders0, order);
    NodesGrow(nodes0, AllNodes(m, orders0), ComponentNodes(m, order), nodesMid, g.nodes, before, queue0, queue);
  }

  /** Walk `orders[k]` covers the component of `seeds[k]`, for each of the first |orders| seeds. */
  ghost predicate ScannedUpTo(m: Mask, seeds: seq<Pos>, orders: seq<seq<Pos>>)
    requires m.Valid()
  {
    && |orders| <= |seeds|
    && (forall k :: 0 <= k < |orders| ==> ScannedFrom(m, seeds[k], orders[k]))
    && (forall k :: 0 <= k < |orders| ==> orders[k] == BfsOrder(m, seeds[k]))
    && (forall k :: 0 <= k < |orders| ==> orders[k] != [])
  }

  lemma ScannedUpToSnoc(m: Mask, seeds: seq<Pos>, orders: seq<seq<Pos>>, order: seq<Pos>)
    requires m.Valid() && ScannedUpTo(m, seeds, orders) && |orders| < |seeds|
    requires ScannedFrom(m, seeds[|orders|], order) && order == BfsOrder(m, seeds[|orders|])
    ensures ScannedUpTo(m, seeds, orders + [order])
  {
    var next := orders + [order];
    assert forall k :: 0 <= k < |orders| ==> next[k] == orders[k];
  }

  /**
   * The node pass: every seed's component in turn, in seed order. The graph
   * gains the nodes of every component one after another, and the queue one
   * origin per new node, carrying that node's id.
   */
  method FindNodes(m: Mask, seeds: seq<Pos>, g: Graph, queue0: seq<BfsData>)
    returns (queue: seq<BfsData>, ghost orders: seq<seq<Pos>>)
    requires m.Valid() && g.Valid()
    modifies g
    ensures |orders| == |seeds| && forall k :: 0 <= k < |seeds| ==> ScannedFrom(m, seeds[k], orders[k])
    ensures forall k :: 0 <= k < |seeds| ==> orders[k] == BfsOrder(m, seeds[k])
    ensures forall k :: 0 <= k < |orders| ==> orders[k] != []
    ensures g.Valid() && g.edges == old(g.edges) && g.nodes == old(g.nodes) + AllNodes(m, orders)
    ensures queue == queue0 + Origins(|old(g.nodes)|, AllNodes(m, orders))
  {
    ghost var nodes0 := g.nodes;
    queue := queue0;
    orders := [];
    for i := 0 to |seeds|
      invariant |orders| == i && ScannedUpTo(m, seeds, orders)
      invariant g.Valid() && g.edges == old(g.edges) && g.nodes == nodes0 + AllNodes(m, orders)
      invariant queue == queue0 + Origins(|nodes0|, AllNodes(m, orders))
    {
      ghost var order;
      queue, order := ScanNextComponent(m, seeds[i], g, queue, orders, nodes0, queue0);
      ScannedUpToSnoc(m, seeds, orders, order);
      orders := orders + [order];
    }
  }
}
