/**
 * The edge tracer: a breadth-first flood from every node at once over an
 * exploration grid. Each cell remembers the node whose flood reached it first
 * and the cell it was reached from. When two floods meet, both predecessor
 * chains are walked back to their nodes and joined into one edge.
 */
module Edges {
  import opened Grid
  import opened VisitMask
  import opened Topology
  import opened Nodes

  /** A cell of the exploration grid moves only forward: Unvisited, Visited, Merged. */
  datatype CellState = Unvisited | Visited | Merged

  /**
   * One cell of the exploration grid: its state, the node whose flood
   * reached it, and the cell it was reached from (itself for a node's own
   * cell, and before it is reached).
   */
  datatype Cell = Cell(state: CellState, root: Option<nat>, prev: Pos)

  /** How far along its life a cell is. */
  function Rank(s: CellState): (r: nat)
    ensures r <= 2
    ensures r == 0 <==> s == Unvisited
  {
    match s
    case Unvisited => 0
    case Visited => 1
    case Merged => 2
  }

  /** The ghost map `s` mirrors the exploration grid `e`, cell for cell. */
  ghost predicate Mirror(e: array2<Cell>, s: map<Pos, Cell>)
    reads e
  {
    && (forall p :: p in s <==> p.x < e.Length1 && p.y < e.Length0)
    && (forall p :: p in s ==> e[p.y, p.x] == s[p])
  }

  /** The cells that no flood has reached yet. */
  function UnvisitedCells(s: map<Pos, Cell>): set<Pos> {
    set p | p in s && s[p].state == Unvisited
  }

  /**
   * A reached cell has a root, and its predecessor is a reached cell: either
   * the cell itself, or a neighbour with the same root that was reached
   * strictly earlier (the ghost `stamp` records when each cell was reached).
   */
  ghost predicate LinkOk(s: map<Pos, Cell>, stamp: map<Pos, nat>, p: Pos)
    requires p in s
  {
    var c := s[p];
    && p in stamp && c.root.Some?
    && c.prev in s && s[c.prev].state != Unvisited
    && (c.prev != p ==>
          Adjacent(p, c.prev) && c.prev in stamp && stamp[c.prev] < stamp[p] && s[c.prev].root == c.root)
  }

  /**
   * Every reached cell is linked. (Each use names the cell it needs, so the
   * solver does not follow predecessors on its own.)
   */
  ghost predicate Linked(s: map<Pos, Cell>, stamp: map<Pos, nat>) {
    forall p {:trigger LinkOk(s, stamp, p)} :: p in s && s[p].state != Unvisited ==> LinkOk(s, stamp, p)
  }

  /**
   * Every root is the id of a node of `nodes`, and a reached cell that is its
   * own predecessor is the cell of its root node.
   */
  ghost predicate Rooted(s: map<Pos, Cell>, nodes: seq<Node>) {
    forall p :: p in s && s[p].state != Unvisited ==>
      s[p].root.Some? && s[p].root.value < |nodes| && (s[p].prev == p ==> nodes[s[p].root.value].pos == p)
  }

  /** The predecessor chain from reached cell `p` back to the cell that is its own predecessor. */
  ghost function Chain(s: map<Pos, Cell>, stamp: map<Pos, nat>, p: Pos): (c: seq<Pos>)
    requires Linked(s, stamp) && p in s && s[p].state != Unvisited
    ensures c != [] && c[0] == p
    decreases if p in stamp then stamp[p] else 0
  {
    assert LinkOk(s, stamp, p);
    if s[p].prev == p then [p] else [p] + Chain(s, stamp, s[p].prev)
  }

  /**
   * A chain runs over reached cells of one root, each step going to the
   * predecessor, which is a neighbour; it ends at the only cell on it that
   * is its own predecessor.
   */
  lemma {:induction false} ChainSpec(s: map<Pos, Cell>, stamp: map<Pos, nat>, p: Pos)
    requires Linked(s, stamp) && p in s && s[p].state != Unvisited
    ensures var c := Chain(s, stamp, p);
      && (forall i :: 0 <= i < |c| ==> c[i] in s && s[c[i]].state != Unvisited && s[c[i]].root == s[p].root)
      && (forall i :: 0 <= i < |c| - 1 ==> s[c[i]].prev == c[i + 1] && Adjacent(c[i], c[i + 1]))
      && s[c[|c| - 1]].prev == c[|c| - 1]
    decreases if p in stamp then stamp[p] else 0
  {
    assert LinkOk(s, stamp, p);
    if s[p].prev != p {
      ChainSpec(s, stamp, s[p].prev);
    }
  }

  /** Only the last cell of a chain is its own predecessor. */
  lemma {:induction false} ChainInterior(s: map<Pos, Cell>, stamp: map<Pos, nat>, p: Pos, i: nat)
    requires Linked(s, stamp) && p in s && s[p].state != Unvisited && i < |Chain(s, stamp, p)|
    ensures var c := Chain(s, stamp, p); c[i] in s && (s[c[i]].prev == c[i] <==> i == |c| - 1)
    decreases if p in stamp then stamp[p] else 0
  {
    assert LinkOk(s, stamp, p);
    if i > 0 {
      ChainInterior(s, stamp, s[p].prev, i - 1);
    }
  }

  function Reversed<T>(xs: seq<T>): seq<T> {
    seq(|xs|, i requires 0 <= i < |xs| => xs[|xs| - 1 - i])
  }

  /** Reversing a sequence keeps its elements. */
  lemma ReversedMembers<T>(xs: seq<T>)
    ensures forall x :: x in Reversed(xs) <==> x in xs
  {
    forall x | x in xs ensures x in Reversed(xs) {
      var i :| 0 <= i < |xs| && xs[i] == x;
      assert Reversed(xs)[|xs| - 1 - i] == x;
    }
  }

  /**
   * The pixels of the edge where the flood that reached `a` meets the one
   * that reached `b`: `a`'s chain reversed (from its node to `a`), then
   * `b`'s chain (from `b` to its node).
   */
  ghost function Joined(s: map<Pos, Cell>, stamp: map<Pos, nat>, a: Pos, b: Pos): seq<Pos>
    requires Linked(s, stamp) && a in s && s[a].state != Unvisited && b in s && s[b].state != Unvisited
  {
    Reversed(Chain(s, stamp, a)) + Chain(s, stamp, b)
  }

  /**
   * The edge added when the flood that reached `a` meets the one that reached
   * `b`: from the lower root to the higher, its pixels in that direction.
   */
  ghost function MeetingEdge(s: map<Pos, Cell>, stamp: map<Pos, nat>, a: Pos, b: Pos): Edge
    requires Linked(s, stamp) && a in s && s[a].state != Unvisited && b in s && s[b].state != Unvisited
  {
    assert LinkOk(s, stamp, a) && LinkOk(s, stamp, b);
    var ra, rb := s[a].root.value, s[b].root.value;
    if ra < rb then Edge(ra, rb, Joined(s, stamp, a, b))
    else Edge(rb, ra, Reversed(Joined(s, stamp, a, b)))
  }

  /** A chain without its last cell, the cell of its node. */
  function Inner(c: seq<Pos>): seq<Pos>
    requires c != []
  {
    c[..|c| - 1]
  }

  /** The grid `s` with the cells of `xs` marked Merged. */
  function MarkMerged(s: map<Pos, Cell>, xs: seq<Pos>): (t: map<Pos, Cell>)
    ensures forall p :: p in t <==> p in s
  {
    map p | p in s :: if p in xs then s[p].(state := Merged) else s[p]
  }

  /** The grid after a meeting at `a` and `b`: every cell on either chain except their ends becomes Merged. */
  ghost function AfterMerge(s: map<Pos, Cell>, stamp: map<Pos, nat>, a: Pos, b: Pos): map<Pos, Cell>
    requires Linked(s, stamp) && a in s && s[a].state != Unvisited && b in s && s[b].state != Unvisited
  {
    MarkMerged(s, Inner(Chain(s, stamp, a)) + Inner(Chain(s, stamp, b)))
  }

  /** The joined pixels run from `a`'s node to `b`'s node over cells of those two roots. */
  lemma JoinedEnds(s: map<Pos, Cell>, stamp: map<Pos, nat>, nodes: seq<Node>, a: Pos, b: Pos)
    requires Linked(s, stamp) && Rooted(s, nodes)
    requires a in s && s[a].state != Unvisited && b in s && s[b].state != Unvisited
    ensures var j := Joined(s, stamp, a, b);
      && j != []
      && j[0] == nodes[s[a].root.value].pos && j[|j| - 1] == nodes[s[b].root.value].pos
      && forall w :: w in j ==> w in s && s[w].state != Unvisited && (s[w].root == s[a].root || s[w].root == s[b].root)
  {
    ChainSpec(s, stamp, a);
    ChainSpec(s, stamp, b);
    var ca, cb := Chain(s, stamp, a), Chain(s, stamp, b);
    var j := Joined(s, stamp, a, b);
    assert j[0] == ca[|ca| - 1] && j[|j| - 1] == cb[|cb| - 1];
    forall w | w in j
      ensures w in s && s[w].state != Unvisited && (s[w].root == s[a].root || s[w].root == s[b].root)
    {
      var i :| 0 <= i < |j| && j[i] == w;
      if i < |ca| {
        assert w == ca[|ca| - 1 - i];
      } else {
        assert w == cb[i - |ca|];
      }
    }
  }

  /** Consecutive pixels are neighbours. */
  ghost predicate Contiguous(ws: seq<Pos>) {
    forall i :: 0 <= i < |ws| - 1 ==> Adjacent(ws[i], ws[i + 1])
  }

  lemma ContiguousReversed(ws: seq<Pos>)
    requires Contiguous(ws)
    ensures Contiguous(Reversed(ws))
  {
    var r := Reversed(ws);
    forall i | 0 <= i < |r| - 1
      ensures Adjacent(r[i], r[i + 1])
    {
      assert r[i] == ws[|ws| - 1 - i] && r[i + 1] == ws[|ws| - 2 - i];
    }
  }

  lemma ContiguousJoin(xs: seq<Pos>, ys: seq<Pos>)
    requires Contiguous(xs) && Contiguous(ys) && xs != [] && ys != [] && Adjacent(xs[|xs| - 1], ys[0])
    ensures Contiguous(xs + ys)
  {
    var j := xs + ys;
    forall i | 0 <= i < |j| - 1
      ensures Adjacent(j[i], j[i + 1])
    {
      if i >= |xs| {
        assert j[i] == ys[i - |xs|] && j[i + 1] == ys[i - |xs| + 1];
      }
    }
  }

  lemma ContiguousChain(s: map<Pos, Cell>, stamp: map<Pos, nat>, p: Pos)
    requires Linked(s, stamp) && p in s && s[p].state != Unvisited
    ensures Contiguous(Chain(s, stamp, p))
  {
    ChainSpec(s, stamp, p);
  }

  /**
   * The edge added at a meeting joins existing nodes, lower id first, and
   * is a self-loop exactly when both floods share a root. Its pixels run
   * from the lower node's cell to the higher node's cell, every one of them
   * reached by one of the two floods; when the two meeting cells are
   * neighbours, consecutive pixels are neighbours too.
   */
  lemma MeetingEdgeSpec(s: map<Pos, Cell>, stamp: map<Pos, nat>, nodes: seq<Node>, a: Pos, b: Pos)
    requires Linked(s, stamp) && Rooted(s, nodes)
    requires a in s && s[a].state != Unvisited && b in s && s[b].state != Unvisited
    ensures var e := MeetingEdge(s, stamp, a, b);
      && e.from <= e.to < |nodes|
      && (e.from == e.to <==> s[a].root == s[b].root)
      && {Some(e.from), Some(e.to)} == {s[a].root, s[b].root}
      && e.waypoints != []
      && e.waypoints[0] == nodes[e.from].pos && e.waypoints[|e.waypoints| - 1] == nodes[e.to].pos
      && (forall w :: w in e.waypoints ==>
            w in s && s[w].state != Unvisited && (s[w].root == Some(e.from) || s[w].root == Some(e.to)))
      && (Adjacent(a, b) ==> Contiguous(e.waypoints))
  {
    JoinedEnds(s, stamp, nodes, a, b);
    var j := Joined(s, stamp, a, b);
    ReversedMembers(j);
    if Adjacent(a, b) {
      var ca, cb := Chain(s, stamp, a), Chain(s, stamp, b);
      ContiguousChain(s, stamp, a);
      ContiguousChain(s, stamp, b);
      ContiguousReversed(ca);
      ContiguousJoin(Reversed(ca), cb);
      ContiguousReversed(j);
    }
  }

  /** `t` differs from `s` at most in the states of reached cells, which stay reached. */
  ghost predicate SameLinks(s: map<Pos, Cell>, t: map<Pos, Cell>) {
    && (forall p :: p in t <==> p in s)
    && (forall p :: p in s ==> t[p].root == s[p].root && t[p].prev == s[p].prev)
    && (forall p :: p in s ==> (t[p].state == Unvisited <==> s[p].state == Unvisited))
  }

  /** Changing only the states of reached cells keeps the grid linked and rooted. */
  lemma LinksKept(s: map<Pos, Cell>, t: map<Pos, Cell>, stamp: map<Pos, nat>, nodes: seq<Node>)
    requires Linked(s, stamp) && Rooted(s, nodes) && SameLinks(s, t)
    ensures Linked(t, stamp) && Rooted(t, nodes) && UnvisitedCells(t) == UnvisitedCells(s)
  {
    forall p | p in t && t[p].state != Unvisited
      ensures LinkOk(t, stamp, p)
    {
      assert LinkOk(s, stamp, p);
    }
  }

  /** A cell inside a chain is reached and is not its own predecessor. */
  lemma InteriorReached(s: map<Pos, Cell>, stamp: map<Pos, nat>, a: Pos, p: Pos)
    requires Linked(s, stamp) && a in s && s[a].state != Unvisited && p in Inner(Chain(s, stamp, a))
    ensures p in s && s[p].state != Unvisited && s[p].prev != p
  {
    var c := Chain(s, stamp, a);
    var i :| 0 <= i < |c| - 1 && c[i] == p;
    ChainSpec(s, stamp, a);
    ChainInterior(s, stamp, a, i);
  }

  /**
   * A meeting changes nothing but states, moves only reached cells on the
   * two chains to Merged, and leaves the cells of the nodes at their ends
   * as they were. So the grid stays linked and rooted, and the set of
   * unreached cells is the same.
   */
  lemma AfterMergeSpec(s: map<Pos, Cell>, stamp: map<Pos, nat>, nodes: seq<Node>, a: Pos, b: Pos)
    requires Linked(s, stamp) && Rooted(s, nodes)
    requires a in s && s[a].state != Unvisited && b in s && s[b].state != Unvisited
    ensures var t := AfterMerge(s, stamp, a, b);
      && SameLinks(s, t)
      && (forall p :: p in s ==> t[p].state == s[p].state || (s[p].state != Unvisited && t[p].state == Merged))
      && (forall p :: p in s && s[p].prev == p ==> t[p] == s[p])
      && Linked(t, stamp) && Rooted(t, nodes)
      && UnvisitedCells(t) == UnvisitedCells(s)
  {
    var ca, cb := Chain(s, stamp, a), Chain(s, stamp, b);
    var t := AfterMerge(s, stamp, a, b);
    forall p | p in s && p in Inner(ca) + Inner(cb)
      ensures s[p].state != Unvisited && s[p].prev != p
    {
      if p in Inner(ca) {
        InteriorReached(s, stamp, a, p);
      } else {
        InteriorReached(s, stamp, b, p);
      }
    }
    LinksKept(s, t, stamp, nodes);
  }

  lemma MarkMergedSnoc(s: map<Pos, Cell>, xs: seq<Pos>, p: Pos)
    requires p in s
    ensures MarkMerged(s, xs + [p]) == MarkMerged(s, xs)[p := MarkMerged(s, xs)[p].(state := Merged)]
  {
  }

  lemma MarkMergedKeeps(s: map<Pos, Cell>, xs: seq<Pos>, p: Pos)
    requires p in s
    ensures MarkMerged(s, xs)[p].prev == s[p].prev && MarkMerged(s, xs)[p].root == s[p].root
  {
  }

  lemma ReversedSnoc<T>(xs: seq<T>, x: T)
    ensures Reversed(xs + [x]) == [x] + Reversed(xs)
  {
  }

  /** One more element of `c` taken, after a prefix `xs`. */
  lemma TakeSnoc<T>(xs: seq<T>, c: seq<T>, k: nat)
    requires k < |c|
    ensures c[..k + 1] == c[..k] + [c[k]] && (xs + c[..k]) + [c[k]] == xs + c[..k + 1]
  {
    assert c[..k + 1] == c[..k] + [c[k]];
  }

  /** Marks the cell at `p` Merged, in the grid and in its mirror. */
  method SetMerged(e: array2<Cell>, p: Pos, ghost s0: map<Pos, Cell>) returns (ghost s: map<Pos, Cell>)
    requires Mirror(e, s0) && p in s0
    modifies e
    ensures Mirror(e, s) && s == s0[p := s0[p].(state := Merged)]
  {
    e[p.y, p.x] := e[p.y, p.x].(state := Merged);
    s := s0[p := s0[p].(state := Merged)];
  }

  /**
   * Walks the chain from `a` back to its node, pushing each cell at the front
   * of the waypoint list and marking every cell but the last Merged.
   */
  method WalkThisSide(e: array2<Cell>, a: Pos, ghost s0: map<Pos, Cell>, ghost stamp: map<Pos, nat>)
    returns (waypointsTemp: seq<Pos>, ghost s: map<Pos, Cell>)
    requires Mirror(e, s0) && Linked(s0, stamp) && a in s0 && s0[a].state != Unvisited
    modifies e
    ensures Mirror(e, s) && s == MarkMerged(s0, Inner(Chain(s0, stamp, a)))
    ensures waypointsTemp == Reversed(Chain(s0, stamp, a))
  {
    ghost var c := Chain(s0, stamp, a);
    ChainSpec(s0, stamp, a);
    var thisSidePos := a;
    ghost var k := 0;
    waypointsTemp := [];
    ghost var merged: seq<Pos> := [];
    s := s0;
    assert s == MarkMerged(s0, merged);
    while true
      invariant 0 <= k < |c| && thisSidePos == c[k]
      invariant waypointsTemp == Reversed(c[..k])
      invariant merged == c[..k]
      invariant Mirror(e, s) && s == MarkMerged(s0, merged)
      decreases |c| - k
    {
      ChainInterior(s0, stamp, a, k);
      MarkMergedKeeps(s0, merged, thisSidePos);
      TakeSnoc([], c, k);
      ReversedSnoc(c[..k], thisSidePos);
      waypointsTemp := [thisSidePos] + waypointsTemp;
      var prevPos := e[thisSidePos.y, thisSidePos.x].prev;
      if prevPos == thisSidePos {
        assert c[..k + 1] == c;
        break;
      }
      MarkMergedSnoc(s0, merged, thisSidePos);
      s := SetMerged(e, thisSidePos, s);
      merged := merged + [thisSidePos];
      thisSidePos := prevPos;
      k := k + 1;
    }
  }

  /**
   * Walks the chain from `b` back to its node, pushing each cell at the back
   * of the waypoint list and marking every cell but the last Merged, on a
   * grid in which the cells `xs` are already Merged.
   */
  method WalkOtherSide(e: array2<Cell>, b: Pos, waypoints0: seq<Pos>, ghost xs: seq<Pos>,
                       ghost s0: map<Pos, Cell>, ghost stamp: map<Pos, nat>)
    returns (waypointsTemp: seq<Pos>, ghost s: map<Pos, Cell>)
    requires Mirror(e, MarkMerged(s0, xs)) && Linked(s0, stamp) && b in s0 && s0[b].state != Unvisited
    modifies e
    ensures Mirror(e, s) && s == MarkMerged(s0, xs + Inner(Chain(s0, stamp, b)))
    ensures waypointsTemp == waypoints0 + Chain(s0, stamp, b)
  {
    ghost var c := Chain(s0, stamp, b);
    ChainSpec(s0, stamp, b);
    var otherSidePos := b;
    ghost var k := 0;
    waypointsTemp := waypoints0;
    ghost var merged := xs;
    s := MarkMerged(s0, xs);
    while true
      invariant 0 <= k < |c| && otherSidePos == c[k]
      invariant waypointsTemp == waypoints0 + c[..k]
      invariant merged == xs + c[..k]
      invariant Mirror(e, s) && s == MarkMerged(s0, merged)
      decreases |c| - k
    {
      ChainInterior(s0, stamp, b, k);
      MarkMergedKeeps(s0, merged, otherSidePos);
      TakeSnoc(xs, c, k);
      waypointsTemp := waypointsTemp + [otherSidePos];
      var prevPos := e[otherSidePos.y, otherSidePos.x].prev;
      if prevPos == otherSidePos {
        assert c[..k + 1] == c && Inner(c) == c[..k];
        break;
      }
      MarkMergedSnoc(s0, merged, otherSidePos);
      s := SetMerged(e, otherSidePos, s);
      merged := merged + [otherSidePos];
      otherSidePos := prevPos;
      k := k + 1;
    }
  }

  /**
   * The meeting of the flood that reached `thisSidePrevPos` with the one that
   * reached `otherSidePos`: both chains are walked back to their nodes and
   * marked Merged, and one edge joining the two roots is added, lower id
   * first, with its pixels listed from the lower root's node.
   */
  method MergeAndAddEdge(g: Graph, e: array2<Cell>, thisSidePrevPos: Pos, otherSidePos: Pos,
                         ghost s0: map<Pos, Cell>, ghost stamp: map<Pos, nat>)
    returns (ghost s: map<Pos, Cell>)
    requires g.Valid() && Mirror(e, s0) && Linked(s0, stamp) && Rooted(s0, g.nodes)
    requires thisSidePrevPos in s0 && s0[thisSidePrevPos].state != Unvisited
    requires otherSidePos in s0 && s0[otherSidePos].state != Unvisited
    modifies g, e
    ensures g.Valid() && g.nodes == old(g.nodes)
    ensures g.edges == old(g.edges) + [MeetingEdge(s0, stamp, thisSidePrevPos, otherSidePos)]
    ensures Mirror(e, s) && s == AfterMerge(s0, stamp, thisSidePrevPos, otherSidePos)
  {
    assert LinkOk(s0, stamp, thisSidePrevPos) && LinkOk(s0, stamp, otherSidePos);
    var thisSideRoot := e[thisSidePrevPos.y, thisSidePrevPos.x].root.value;
    var waypointsTemp;
    waypointsTemp, s := WalkThisSide(e, thisSidePrevPos, s0, stamp);
    MarkMergedKeeps(s0, Inner(Chain(s0, stamp, thisSidePrevPos)), otherSidePos);
    var otherSideRoot := e[otherSidePos.y, otherSidePos.x].root.value;
    waypointsTemp, s := WalkOtherSide(e, otherSidePos, waypointsTemp, Inner(Chain(s0, stamp, thisSidePrevPos)), s0, stamp);

    assert waypointsTemp == Joined(s0, stamp, thisSidePrevPos, otherSidePos);
    var edge := OrientEdge(thisSideRoot, otherSideRoot, waypointsTemp);
    g.AddEdge(edge.from, edge.to, edge.waypoints);
  }

  /**
   * The edge between roots `thisSideRoot` and `otherSideRoot` whose pixels,
   * listed from this side, are `waypointsTemp`: lower root first, pixels
   * reversed when this side is not the lower one.
   */
  method OrientEdge(thisSideRoot: nat, otherSideRoot: nat, waypointsTemp: seq<Pos>) returns (edge: Edge)
    ensures edge.from == if thisSideRoot < otherSideRoot then thisSideRoot else otherSideRoot
    ensures edge.to == if thisSideRoot < otherSideRoot then otherSideRoot else thisSideRoot
    ensures edge.waypoints == if thisSideRoot < otherSideRoot then waypointsTemp else Reversed(waypointsTemp)
  {
    var waypoints: seq<Pos> := [];
    if thisSideRoot < otherSideRoot {
      for i := 0 to |waypointsTemp|
        invariant waypoints == waypointsTemp[..i]
      {
        waypoints := waypoints + [waypointsTemp[i]];
      }
      edge := Edge(thisSideRoot, otherSideRoot, waypoints);
    } else {
      for i := 0 to |waypointsTemp|
        invariant waypoints == Reversed(waypointsTemp)[..i]
      {
        waypoints := waypoints + [waypointsTemp[|waypointsTemp| - 1 - i]];
      }
      edge := Edge(otherSideRoot, thisSideRoot, waypoints);
    }
  }

  /** The keys of `s` are exactly the pixels of the mask. */
  ghost predicate Shaped(m: Mask, s: map<Pos, Cell>) {
    forall p :: p in s <==> m.InBounds(p)
  }

  /**
   * Rim step `i` from the cell of `data` may be queued: the visit mask allows
   * it, it stays on the grid, it does not go back to `data`'s predecessor,
   * and it lands on a cell no flood has reached.
   */
  ghost predicate Allowed(m: Mask, s: map<Pos, Cell>, data: BfsData, i: nat)
    requires m.Valid() && Shaped(m, s) && i < 8
  {
    var n := NeighboringPos(data.pos, m.width, m.height, i);
    GetVisitMask(m, data.pos)[i] && n.Some? && n.value != data.prevPos && s[n.value].state == Unvisited
  }

  /** The rim steps among the first `k` that are allowed. */
  ghost function AllowedSteps(m: Mask, s: map<Pos, Cell>, data: BfsData, k: nat): set<nat>
    requires m.Valid() && Shaped(m, s) && k <= 8
  {
    if k == 0 then {}
    else AllowedSteps(m, s, data, k - 1) + if Allowed(m, s, data, k - 1) then {k - 1} else {}
  }

  /** The allowed steps are exactly the rim steps below `k` that Allowed admits. */
  lemma {:induction false} AllowedStepsSpec(m: Mask, s: map<Pos, Cell>, data: BfsData, k: nat)
    requires m.Valid() && Shaped(m, s) && k <= 8
    ensures forall i :: i in AllowedSteps(m, s, data, k) <==> 0 <= i < k && Allowed(m, s, data, i)
  {
    if k > 0 {
      AllowedStepsSpec(m, s, data, k - 1);
    }
  }

  /** The items queued from the cell of `data` for its first `k` rim steps. */
  ghost function Expansions(m: Mask, s: map<Pos, Cell>, data: BfsData, k: nat): seq<BfsData>
    requires m.Valid() && Shaped(m, s) && k <= 8
  {
    if k == 0 then []
    else
      Expansions(m, s, data, k - 1)
      + if Allowed(m, s, data, k - 1)
        then [BfsData(data.rootNode, NeighboringPos(data.pos, m.width, m.height, k - 1).value, data.pos)]
        else []
  }

  /** A cell queues exactly one item per allowed rim step. */
  lemma {:induction false} ExpansionsCount(m: Mask, s: map<Pos, Cell>, data: BfsData, k: nat)
    requires m.Valid() && Shaped(m, s) && k <= 8
    ensures |Expansions(m, s, data, k)| == |AllowedSteps(m, s, data, k)|
  {
    if k == 0 {
      assert Expansions(m, s, data, k) == [] && AllowedSteps(m, s, data, k) == {};
    } else {
      ExpansionsCount(m, s, data, k - 1);
      ExpansionsStep(m, s, data, k - 1);
      AllowedStepsStep(m, s, data, k - 1);
      CountedStep(|Expansions(m, s, data, k - 1)|, |Expansions(m, s, data, k)|,
                  AllowedSteps(m, s, data, k - 1), Allowed(m, s, data, k - 1), k - 1);
    }
  }

  /** A count that grows by one exactly when a fresh step joins the set keeps matching its size. */
  lemma CountedStep(count: nat, next: nat, steps: set<nat>, b: bool, i: nat)
    requires count == |steps| && i !in steps && next == count + if b then 1 else 0
    ensures next == |steps + if b then {i} else {}|
  {
  }

  /** One more rim step adds that step, which was not there, exactly when it is allowed. */
  lemma AllowedStepsStep(m: Mask, s: map<Pos, Cell>, data: BfsData, i: nat)
    requires m.Valid() && Shaped(m, s) && i < 8
    ensures i !in AllowedSteps(m, s, data, i)
    ensures AllowedSteps(m, s, data, i + 1)
      == AllowedSteps(m, s, data, i) + if Allowed(m, s, data, i) then {i} else {}
  {
    AllowedStepsSpec(m, s, data, i);
  }

  /** One more rim step queues its item exactly when the step is allowed. */
  lemma ExpansionsStep(m: Mask, s: map<Pos, Cell>, data: BfsData, i: nat)
    requires m.Valid() && Shaped(m, s) && i < 8
    ensures var n := NeighboringPos(data.pos, m.width, m.height, i);
      Expansions(m, s, data, i + 1) == Expansions(m, s, data, i)
        + if Allowed(m, s, data, i) then [BfsData(data.rootNode, n.value, data.pos)] else []
  {
  }

  /**
   * The items queued from a cell carry its root, have it as predecessor, and
   * go to unreached skeleton neighbours other than its own predecessor; and
   * every rim step that is allowed is queued.
   */
  lemma {:induction false} ExpansionsSpec(m: Mask, s: map<Pos, Cell>, data: BfsData, k: nat)
    requires m.Valid() && Shaped(m, s) && k <= 8
    ensures forall item :: item in Expansions(m, s, data, k) ==> ExpandsTo(m, s, data, item)
    ensures forall i :: 0 <= i < k && Allowed(m, s, data, i) ==>
      BfsData(data.rootNode, NeighboringPos(data.pos, m.width, m.height, i).value, data.pos) in Expansions(m, s, data, k)
  {
    if k > 0 {
      ExpansionsSpec(m, s, data, k - 1);
      if Allowed(m, s, data, k - 1) {
        AllowedExpands(m, s, data, k - 1);
      }
    }
  }

  /**
   * An item queued from the cell of `data`: same root, that cell as its
   * predecessor, and an unreached neighbouring skeleton pixel other than the
   * one `data` came from as its target.
   */
  ghost predicate ExpandsTo(m: Mask, s: map<Pos, Cell>, data: BfsData, item: BfsData)
    requires m.Valid()
  {
    && item.rootNode == data.rootNode && item.prevPos == data.pos
    && item.pos in s && s[item.pos].state == Unvisited && item.pos != data.prevPos
    && Adjacent(data.pos, item.pos) && m.IsFg(item.pos)
  }

  /** The item an allowed rim step queues. */
  lemma AllowedExpands(m: Mask, s: map<Pos, Cell>, data: BfsData, i: nat)
    requires m.Valid() && Shaped(m, s) && i < 8 && Allowed(m, s, data, i)
    ensures ExpandsTo(m, s, data, BfsData(data.rootNode, NeighboringPos(data.pos, m.width, m.height, i).value, data.pos))
  {
    VisitMaskSpec(m, data.pos);
  }


  /**
   * Queues every rim neighbour of the cell of `data` that the visit mask
   * allows, that is on the grid, that is not `data`'s predecessor and that
   * no flood has reached, on behalf of `data`'s root.
   */
  method ExpandCell(m: Mask, e: array2<Cell>, data: BfsData, queue0: seq<BfsData>, ghost s: map<Pos, Cell>)
    returns (queue: seq<BfsData>)
    requires m.Valid() && Shaped(m, s) && Mirror(e, s)
    ensures queue == queue0 + Expansions(m, s, data, 8)
  {
    var visitMask := GetVisitMask(m, data.pos);
    queue := queue0;
    for neighbor := 0 to 8
      invariant queue == queue0 + Expansions(m, s, data, neighbor)
    {
      ExpansionsStep(m, s, data, neighbor);
      if !visitMask[neighbor] {
        continue;
      }
      var dx, dy := RIM[neighbor].0, RIM[neighbor].1;
      var x: int := data.pos.x + dx;
      var y: int := data.pos.y + dy;
      if x < 0 || x >= m.width || y < 0 || y >= m.height {
        continue;
      }
      var neighborPos := Pos(x, y);
      if neighborPos == data.prevPos {
        continue;
      }
      if e[y, x].state != Unvisited {
        continue;
      }
      queue := queue + [BfsData(data.rootNode, neighborPos, data.pos)];
    }
  }

  /** A node's own item: the cell is its own predecessor. */
  predicate IsOrigin(item: BfsData) {
    item.pos == item.prevPos
  }

  /**
   * A queued item targets a grid cell on behalf of an existing node. A
   * node's own item sits on that node's pixel; any other item comes from a
   * neighbouring cell already reached by the same node's flood.
   */
  ghost predicate ItemOk(s: map<Pos, Cell>, nodes: seq<Node>, item: BfsData) {
    && item.pos in s && item.prevPos in s && item.rootNode < |nodes|
    && (IsOrigin(item) ==> nodes[item.rootNode].pos == item.pos)
    && (!IsOrigin(item) ==>
          Adjacent(item.prevPos, item.pos) && s[item.prevPos].state != Unvisited
          && s[item.prevPos].root == Some(item.rootNode))
  }

  /** No node's own item waits behind an item of a flood. */
  ghost predicate OriginsFirst(queue: seq<BfsData>) {
    forall i, j :: 0 <= i < j < |queue| && IsOrigin(queue[j]) ==> IsOrigin(queue[i])
  }

  /** The nodes' own items still queued sit on distinct cells that no flood has reached. */
  ghost predicate OriginsApart(s: map<Pos, Cell>, queue: seq<BfsData>) {
    && (forall i, j :: 0 <= i < j < |queue| && IsOrigin(queue[i]) && IsOrigin(queue[j]) ==> queue[i].pos != queue[j].pos)
    && (forall i :: 0 <= i < |queue| && IsOrigin(queue[i]) ==> queue[i].pos in s && s[queue[i].pos].state == Unvisited)
  }

  /** Every reached cell and every queued target is a skeleton pixel. */
  ghost predicate OnSkeleton(m: Mask, s: map<Pos, Cell>, queue: seq<BfsData>)
    requires m.Valid()
  {
    && (forall p :: p in s && s[p].state != Unvisited ==> m.IsFg(p))
    && (forall i :: 0 <= i < |queue| ==> m.IsFg(queue[i].pos))
  }

  /**
   * The invariant of the flood: the grid is linked and rooted, its reached
   * cells and queued targets are skeleton pixels, every stamp
   * is below the next one `n`, and the queue is well formed. `apart` says
   * that the nodes' own items started on distinct cells.
   */
  ghost predicate Exploring(m: Mask, s: map<Pos, Cell>, stamp: map<Pos, nat>, n: nat, nodes: seq<Node>,
                            queue: seq<BfsData>, apart: bool)
  {
    && m.Valid() && OnSkeleton(m, s, queue)
    && Shaped(m, s) && Linked(s, stamp) && Rooted(s, nodes)
    && (forall p :: p in stamp ==> stamp[p] < n)
    && (forall i :: 0 <= i < |queue| ==> ItemOk(s, nodes, queue[i]))
    && OriginsFirst(queue)
    && (apart ==> OriginsApart(s, queue))
  }

  /**
   * An edge the flood adds: it joins existing nodes, lower id first, and its
   * pixels are skeleton pixels running from the lower node's pixel to the
   * higher node's pixel; when the nodes' own items started on distinct
   * cells, consecutive pixels are neighbours.
   */
  ghost predicate EdgeOk(m: Mask, nodes: seq<Node>, edge: Edge, apart: bool)
    requires m.Valid()
  {
    && edge.from <= edge.to < |nodes|
    && edge.waypoints != []
    && edge.waypoints[0] == nodes[edge.from].pos
    && edge.waypoints[|edge.waypoints| - 1] == nodes[edge.to].pos
    && (forall w :: w in edge.waypoints ==> m.IsFg(w))
    && (apart ==> Contiguous(edge.waypoints))
  }

  /** The grid after the cell of `data` is reached by `data`'s flood. */
  function Reach(s: map<Pos, Cell>, data: BfsData): map<Pos, Cell> {
    s[data.pos := Cell(Visited, Some(data.rootNode), data.prevPos)]
  }

  /** The newly reached cell links back to the cell its item came from. */
  lemma ReachLinksNew(s: map<Pos, Cell>, stamp: map<Pos, nat>, n: nat, nodes: seq<Node>, data: BfsData)
    requires Linked(s, stamp) && forall p :: p in stamp ==> stamp[p] < n
    requires ItemOk(s, nodes, data) && s[data.pos].state == Unvisited
    ensures Reach(s, data)[data.pos] == Cell(Visited, Some(data.rootNode), data.prevPos)
    ensures LinkOk(Reach(s, data), stamp[data.pos := n], data.pos)
  {
    if !IsOrigin(data) {
      assert LinkOk(s, stamp, data.prevPos);
    }
  }

  /** A cell reached earlier keeps its link when another cell is reached. */
  lemma ReachLinksOld(s: map<Pos, Cell>, stamp: map<Pos, nat>, n: nat, data: BfsData, p: Pos)
    requires Linked(s, stamp) && data.pos in s && s[data.pos].state == Unvisited
    requires p in s && p != data.pos && s[p].state != Unvisited
    ensures LinkOk(Reach(s, data), stamp[data.pos := n], p)
  {
    assert LinkOk(s, stamp, p);
  }

  /** Reaching an unreached cell keeps the grid linked, with the new cell stamped last. */
  lemma ReachKeepsLinks(s: map<Pos, Cell>, stamp: map<Pos, nat>, n: nat, nodes: seq<Node>, data: BfsData,
                         tstamp: map<Pos, nat>)
    requires Linked(s, stamp) && forall p :: p in stamp ==> stamp[p] < n
    requires ItemOk(s, nodes, data) && s[data.pos].state == Unvisited && tstamp == stamp[data.pos := n]
    ensures Linked(Reach(s, data), tstamp)
    ensures forall p :: p in tstamp ==> tstamp[p] < n + 1
  {
    var t := Reach(s, data);
    ReachLinksNew(s, stamp, n, nodes, data);
    forall p | p in t && t[p].state != Unvisited
      ensures LinkOk(t, tstamp, p)
    {
      if p != data.pos {
        ReachLinksOld(s, stamp, n, data, p);
      }
    }
  }

  /** Reaching an unreached cell keeps the grid rooted and removes one unreached cell. */
  lemma ReachKeepsRoots(m: Mask, s: map<Pos, Cell>, nodes: seq<Node>, data: BfsData)
    requires Shaped(m, s) && Rooted(s, nodes)
    requires ItemOk(s, nodes, data) && s[data.pos].state == Unvisited
    ensures Shaped(m, Reach(s, data)) && Rooted(Reach(s, data), nodes)
    ensures UnvisitedCells(Reach(s, data)) == UnvisitedCells(s) - {data.pos}
    ensures Advances(s, Reach(s, data))
  {
  }

  /** The items expanded from a cell are never a node's own item. */
  lemma ExpansionsNotOrigins(m: Mask, t: map<Pos, Cell>, data: BfsData, rest: seq<BfsData>, queue: seq<BfsData>)
    requires m.Valid() && Shaped(m, t) && queue == rest + Expansions(m, t, data, 8)
    ensures forall k :: |rest| <= k < |queue| ==> queue[k] in Expansions(m, t, data, 8) && !IsOrigin(queue[k])
  {
    ExpansionsSpec(m, t, data, 8);
    forall k | |rest| <= k < |queue|
      ensures queue[k] in Expansions(m, t, data, 8) && !IsOrigin(queue[k])
    {
      assert queue[k] == Expansions(m, t, data, 8)[k - |rest|];
      assert ExpandsTo(m, t, data, queue[k]);
    }
  }

  /**
   * After the cell of the popped item `data` is reached, every item of the
   * rest of the queue and every item expanded from that cell is well formed.
   */
  lemma ReachKeepsItems(m: Mask, s: map<Pos, Cell>, nodes: seq<Node>, data: BfsData, rest: seq<BfsData>)
    requires m.Valid() && Shaped(m, s) && ItemOk(s, nodes, data) && s[data.pos].state == Unvisited
    requires forall i :: 0 <= i < |rest| ==> ItemOk(s, nodes, rest[i])
    ensures var t := Reach(s, data); var queue := rest + Expansions(m, t, data, 8);
      forall i :: 0 <= i < |queue| ==> ItemOk(t, nodes, queue[i])
  {
    var t := Reach(s, data);
    var x := Expansions(m, t, data, 8);
    var queue := rest + x;
    ExpansionsSpec(m, t, data, 8);
    forall i | 0 <= i < |queue|
      ensures ItemOk(t, nodes, queue[i])
    {
      if i < |rest| {
        assert ItemOk(s, nodes, rest[i]) && queue[i] == rest[i];
      } else {
        assert queue[i] in x;
      }
    }
  }

  /** Items expanded after the rest of the queue keep the nodes' own items first. */
  lemma ReachKeepsOrder(m: Mask, t: map<Pos, Cell>, data: BfsData, rest: seq<BfsData>)
    requires m.Valid() && Shaped(m, t) && OriginsFirst([data] + rest)
    ensures OriginsFirst(rest + Expansions(m, t, data, 8))
  {
    var whole, queue := [data] + rest, rest + Expansions(m, t, data, 8);
    ExpansionsNotOrigins(m, t, data, rest, queue);
    forall i, j | 0 <= i < j < |queue| && IsOrigin(queue[j])
      ensures IsOrigin(queue[i])
    {
      assert j < |rest|;
      assert whole[i + 1] == queue[i] && whole[j + 1] == queue[j];
    }
  }

  /**
   * When a popped item reaches its cell, the nodes' own items still queued
   * stay on distinct unreached cells.
   */
  lemma ReachKeepsApart(m: Mask, s: map<Pos, Cell>, data: BfsData, rest: seq<BfsData>)
    requires m.Valid() && Shaped(m, s) && data.pos in s
    requires OriginsFirst([data] + rest) && OriginsApart(s, [data] + rest)
    ensures OriginsApart(Reach(s, data), rest + Expansions(m, Reach(s, data), data, 8))
  {
    var t := Reach(s, data);
    var whole, queue := [data] + rest, rest + Expansions(m, t, data, 8);
    assert Shaped(m, t);
    ExpansionsNotOrigins(m, t, data, rest, queue);
    assert forall k :: 0 <= k < |rest| ==> whole[k + 1] == queue[k];
    assert whole[0] == data;
    forall i | 0 <= i < |queue| && IsOrigin(queue[i])
      ensures queue[i].pos in t && t[queue[i].pos].state == Unvisited
    {
      assert IsOrigin(whole[0]) && whole[0].pos != whole[i + 1].pos;
    }
  }

  /**
   * The popped item targets a skeleton pixel and so do the items expanded
   * from it, so reaching its cell keeps the flood on the skeleton.
   */
  lemma ReachKeepsSkeleton(m: Mask, s: map<Pos, Cell>, data: BfsData, rest: seq<BfsData>)
    requires m.Valid() && Shaped(m, s) && OnSkeleton(m, s, [data] + rest)
    ensures Shaped(m, Reach(s, data))
    ensures OnSkeleton(m, Reach(s, data), rest + Expansions(m, Reach(s, data), data, 8))
  {
    var t := Reach(s, data);
    var whole := [data] + rest;
    assert whole[0] == data && m.IsFg(data.pos);
    assert Shaped(m, t);
    var queue := rest + Expansions(m, t, data, 8);
    ExpansionsNotOrigins(m, t, data, rest, queue);
    ExpansionsSpec(m, t, data, 8);
    forall i | 0 <= i < |queue|
      ensures m.IsFg(queue[i].pos)
    {
      if i < |rest| {
        assert queue[i] == whole[i + 1];
      } else {
        assert ExpandsTo(m, t, data, queue[i]);
      }
    }
  }

  /** Dropping the front item keeps the exploration invariant. */
  lemma PopKeeps(m: Mask, s: map<Pos, Cell>, stamp: map<Pos, nat>, n: nat, nodes: seq<Node>,
                 queue: seq<BfsData>, apart: bool)
    requires queue != [] && Exploring(m, s, stamp, n, nodes, queue, apart)
    ensures Exploring(m, s, stamp, n, nodes, queue[1..], apart)
  {
    var rest := queue[1..];
    assert forall k :: 0 <= k < |rest| ==> rest[k] == queue[k + 1];
  }

  /**
   * A merge keeps every link, root and unreached cell, so the queue stays
   * well formed over the merged grid.
   */
  lemma MergeKeeps(m: Mask, s: map<Pos, Cell>, t: map<Pos, Cell>, stamp: map<Pos, nat>, n: nat, nodes: seq<Node>,
                   queue: seq<BfsData>, apart: bool)
    requires Exploring(m, s, stamp, n, nodes, queue, apart)
    requires SameLinks(s, t) && Linked(t, stamp) && Rooted(t, nodes)
    ensures Exploring(m, t, stamp, n, nodes, queue, apart)
  {
    forall i | 0 <= i < |queue|
      ensures ItemOk(t, nodes, queue[i])
    {
      assert ItemOk(s, nodes, queue[i]);
    }
  }

  /**
   * Cells only move forward, and a cell's root and predecessor are written
   * only when it is first reached.
   */
  ghost predicate Advances(s0: map<Pos, Cell>, s: map<Pos, Cell>) {
    && (forall p :: p in s0 <==> p in s)
    && (forall p :: p in s0 ==> Rank(s[p].state) >= Rank(s0[p].state))
    && (forall p :: p in s0 && s0[p].state != Unvisited ==> s[p].root == s0[p].root && s[p].prev == s0[p].prev)
  }

  /** What a meeting at the popped item's cell leaves: an edge worth adding and a well formed queue. */
  lemma MeetKeeps(m: Mask, s: map<Pos, Cell>, stamp: map<Pos, nat>, n: nat, nodes: seq<Node>,
                  data: BfsData, rest: seq<BfsData>, apart: bool)
    requires m.Valid() && Exploring(m, s, stamp, n, nodes, [data] + rest, apart)
    requires data.pos in s && s[data.pos].state == Visited
    requires data.prevPos in s && s[data.prevPos].state != Unvisited
    ensures var t := AfterMerge(s, stamp, data.prevPos, data.pos);
      && Exploring(m, t, stamp, n, nodes, rest, apart)
      && Advances(s, t) && UnvisitedCells(t) == UnvisitedCells(s)
    ensures EdgeOk(m, nodes, MeetingEdge(s, stamp, data.prevPos, data.pos), apart)
  {
    MeetFront(m, s, stamp, n, nodes, data, rest, apart);
    AfterMergeSpec(s, stamp, nodes, data.prevPos, data.pos);
    MeetingEdgeOk(m, s, stamp, nodes, data.prevPos, data.pos, apart);
    MergeKeeps(m, s, AfterMerge(s, stamp, data.prevPos, data.pos), stamp, n, nodes, rest, apart);
  }

  /**
   * An item popped from a cell its flood already reached leaves the rest of
   * the queue well formed; when origins start on distinct cells it is not
   * an origin, so it came from a neighbouring cell.
   */
  lemma MeetFront(m: Mask, s: map<Pos, Cell>, stamp: map<Pos, nat>, n: nat, nodes: seq<Node>,
                  data: BfsData, rest: seq<BfsData>, apart: bool)
    requires Exploring(m, s, stamp, n, nodes, [data] + rest, apart)
    requires data.pos in s && s[data.pos].state == Visited
    ensures Exploring(m, s, stamp, n, nodes, rest, apart)
    ensures apart ==> Adjacent(data.prevPos, data.pos)
  {
    var queue0 := [data] + rest;
    assert queue0[0] == data && queue0[1..] == rest;
    assert ItemOk(s, nodes, queue0[0]);
    PopKeeps(m, s, stamp, n, nodes, queue0, apart);
    if apart {
      assert !IsOrigin(queue0[0]);
    }
  }

  /** The edge added where two floods meet passes the edge check. */
  lemma MeetingEdgeOk(m: Mask, s: map<Pos, Cell>, stamp: map<Pos, nat>, nodes: seq<Node>, a: Pos, b: Pos, apart: bool)
    requires m.Valid() && Linked(s, stamp) && Rooted(s, nodes)
    requires forall p :: p in s && s[p].state != Unvisited ==> m.IsFg(p)
    requires a in s && s[a].state != Unvisited && b in s && s[b].state != Unvisited
    requires apart ==> Adjacent(a, b)
    ensures EdgeOk(m, nodes, MeetingEdge(s, stamp, a, b), apart)
  {
    MeetingEdgeSpec(s, stamp, nodes, a, b);
  }

  /**
   * The flood popped `data` from a cell it had already reached: the two
   * floods meet there and exactly one edge is added, joining them.
   */
  method MeetAt(m: Mask, g: Graph, e: array2<Cell>, data: BfsData, rest: seq<BfsData>,
                ghost s0: map<Pos, Cell>, ghost stamp: map<Pos, nat>, ghost n: nat, ghost apart: bool)
    returns (ghost s: map<Pos, Cell>)
    requires m.Valid() && g.Valid() && Mirror(e, s0)
    requires Exploring(m, s0, stamp, n, g.nodes, [data] + rest, apart)
    requires data.pos in s0 && s0[data.pos].state == Visited
    requires data.prevPos in s0 && s0[data.prevPos].state != Unvisited
    modifies g, e
    ensures g.Valid() && g.nodes == old(g.nodes) && Mirror(e, s)
    ensures Exploring(m, s, stamp, n, g.nodes, rest, apart)
    ensures s == AfterMerge(s0, stamp, data.prevPos, data.pos)
    ensures g.edges == old(g.edges) + [MeetingEdge(s0, stamp, data.prevPos, data.pos)]
    ensures EdgeOk(m, g.nodes, MeetingEdge(s0, stamp, data.prevPos, data.pos), apart)
    ensures Advances(s0, s) && UnvisitedCells(s) == UnvisitedCells(s0)
  {
    ghost var nodes := g.nodes;
    MeetKeeps(m, s0, stamp, n, nodes, data, rest, apart);
    s := MergeAndAddEdge(g, e, data.prevPos, data.pos, s0, stamp);
  }

  /**
   * The flood popped `data` from a cell no flood had reached: the cell is
   * reached on behalf of `data`'s node and its allowed neighbours are queued.
   */
  method ReachAt(m: Mask, e: array2<Cell>, data: BfsData, rest: seq<BfsData>, ghost nodes: seq<Node>,
                 ghost s0: map<Pos, Cell>, ghost stamp0: map<Pos, nat>, ghost n0: nat, ghost apart: bool)
    returns (queue: seq<BfsData>, ghost s: map<Pos, Cell>, ghost stamp: map<Pos, nat>, ghost n: nat)
    requires m.Valid() && Mirror(e, s0)
    requires Exploring(m, s0, stamp0, n0, nodes, [data] + rest, apart)
    requires data.pos in s0 && s0[data.pos].state == Unvisited
    modifies e
    ensures Mirror(e, s) && Exploring(m, s, stamp, n, nodes, queue, apart)
    ensures s == Reach(s0, data) && queue == rest + Expansions(m, s, data, 8)
    ensures Advances(s0, s) && UnvisitedCells(s) == UnvisitedCells(s0) - {data.pos}
    ensures |UnvisitedCells(s)| < |UnvisitedCells(s0)|
  {
    var queue0 := [data] + rest;
    assert queue0[0] == data && queue0[1..] == rest;
    assert ItemOk(s0, nodes, queue0[0]);
    assert forall i :: 0 <= i < |rest| ==> rest[i] == queue0[i + 1];
    // The source writes the state, the predecessor and the root one at a
    // time (and the state twice); the cell ends up the same.
    e[data.pos.y, data.pos.x] := Cell(Visited, Some(data.rootNode), data.prevPos);
    s := Reach(s0, data);
    stamp, n := stamp0[data.pos := n0], n0 + 1;
    ReachKeepsLinks(s0, stamp0, n0, nodes, data, stamp);
    ReachKeepsRoots(m, s0, nodes, data);
    ReachKeepsItems(m, s0, nodes, data, rest);
    ReachKeepsOrder(m, s, data, rest);
    ReachKeepsSkeleton(m, s0, data, rest);
    if apart {
      ReachKeepsApart(m, s0, data, rest);
    }
    queue := ExpandCell(m, e, data, rest, s);
  }

  /** The front item of the queue targets a grid cell and is a node's own item or comes from a reached cell. */
  lemma FrontItem(m: Mask, s: map<Pos, Cell>, stamp: map<Pos, nat>, n: nat, nodes: seq<Node>,
                  queue: seq<BfsData>, apart: bool)
    requires queue != [] && Exploring(m, s, stamp, n, nodes, queue, apart)
    ensures queue[0].pos in s && queue[0].prevPos in s
    ensures IsOrigin(queue[0]) || s[queue[0].prevPos].state != Unvisited
  {
    assert ItemOk(s, nodes, queue[0]);
  }

  /**
   * One turn of the flood: the front item is popped. On a Merged cell it is
   * dropped; on a Visited cell the two floods meet and exactly one edge is
   * added; on an Unvisited cell the cell is reached and its allowed
   * neighbours are queued. Either a cell is reached or the queue shrinks.
   */
  method ProcessItem(m: Mask, g: Graph, e: array2<Cell>, queue0: seq<BfsData>,
                     ghost s0: map<Pos, Cell>, ghost stamp0: map<Pos, nat>, ghost n0: nat, ghost apart: bool)
    returns (queue: seq<BfsData>, ghost s: map<Pos, Cell>, ghost stamp: map<Pos, nat>, ghost n: nat)
    requires m.Valid() && g.Valid() && Mirror(e, s0) && queue0 != []
    requires Exploring(m, s0, stamp0, n0, g.nodes, queue0, apart)
    modifies g, e
    ensures g.Valid() && g.nodes == old(g.nodes) && Mirror(e, s)
    ensures Exploring(m, s, stamp, n, g.nodes, queue, apart)
    ensures var data := queue0[0];
      match s0[data.pos].state
      case Merged => s == s0 && queue == queue0[1..] && g.edges == old(g.edges)
      case Visited =>
        && s == AfterMerge(s0, stamp0, data.prevPos, data.pos) && queue == queue0[1..]
        && g.edges == old(g.edges) + [MeetingEdge(s0, stamp0, data.prevPos, data.pos)]
        && EdgeOk(m, g.nodes, MeetingEdge(s0, stamp0, data.prevPos, data.pos), apart)
      case Unvisited =>
        && s == Reach(s0, data) && queue == queue0[1..] + Expansions(m, s, data, 8)
        && g.edges == old(g.edges)
    ensures Advances(s0, s)
    ensures |UnvisitedCells(s)| < |UnvisitedCells(s0)| || (UnvisitedCells(s) == UnvisitedCells(s0) && |queue| < |queue0|)
    ensures |old(g.edges)| <= |g.edges| && g.edges[..|old(g.edges)|] == old(g.edges)
    ensures forall k :: |old(g.edges)| <= k < |g.edges| ==> EdgeOk(m, g.nodes, g.edges[k], apart)
  {
    var data := queue0[0];
    var rest := queue0[1..];
    assert queue0 == [data] + rest;
    FrontItem(m, s0, stamp0, n0, g.nodes, queue0, apart);
    var state := e[data.pos.y, data.pos.x].state;
    if state == Merged {
      PopKeeps(m, s0, stamp0, n0, g.nodes, queue0, apart);
      queue, s, stamp, n := rest, s0, stamp0, n0;
    } else if state == Visited {
      s := MeetAt(m, g, e, data, rest, s0, stamp0, n0, apart);
      queue, stamp, n := rest, stamp0, n0;
      assert g.edges[|g.edges| - 1] == MeetingEdge(s0, stamp0, data.prevPos, data.pos);
    } else {
      queue, s, stamp, n := ReachAt(m, e, data, rest, g.nodes, s0, stamp0, n0, apart);
    }
  }

  /** The queue a flood starts from: one item per node, on that node's pixel. */
  ghost predicate Seeded(m: Mask, nodes: seq<Node>, queue: seq<BfsData>)
    requires m.Valid()
  {
    forall i :: 0 <= i < |queue| ==>
      && IsOrigin(queue[i]) && m.IsFg(queue[i].pos)
      && queue[i].rootNode < |nodes| && nodes[queue[i].rootNode].pos == queue[i].pos
  }

  /** No two items of the queue target the same cell. */
  ghost predicate DistinctTargets(queue: seq<BfsData>) {
    forall i, j :: 0 <= i < j < |queue| ==> queue[i].pos != queue[j].pos
  }

  /** The exploration grid before the flood: every cell unreached, rootless and its own predecessor. */
  ghost function FreshGrid(m: Mask): (s: map<Pos, Cell>)
    ensures Shaped(m, s)
    ensures forall p :: p in s ==> s[p] == Cell(Unvisited, None, p)
  {
    map x: nat, y: nat | x < m.width && y < m.height :: Pos(x, y) := Cell(Unvisited, None, Pos(x, y))
  }

  /** The flood starts well formed from the nodes' own items. */
  lemma FreshExploring(m: Mask, nodes: seq<Node>, queue: seq<BfsData>)
    requires m.Valid() && Seeded(m, nodes, queue)
    ensures Exploring(m, FreshGrid(m), map[], 0, nodes, queue, DistinctTargets(queue))
  {
    var s := FreshGrid(m);
    forall i | 0 <= i < |queue|
      ensures ItemOk(s, nodes, queue[i])
    {
      assert queue[i].pos in s;
    }
  }

  /**
   * The flood from every node at once. It ends once the queue is empty,
   * which it must, since every turn either reaches a new cell or shrinks the
   * queue. It keeps the nodes and only appends edges, each joining existing
   * nodes lower id first and running from the lower node's pixel to the
   * higher node's pixel; when the nodes sit on distinct pixels, consecutive
   * pixels of every edge are neighbours.
   */
  method FindEdges(m: Mask, g: Graph, queue0: seq<BfsData>)
    requires m.Valid() && g.Valid() && Seeded(m, g.nodes, queue0)
    modifies g
    ensures g.Valid() && g.nodes == old(g.nodes)
    ensures |old(g.edges)| <= |g.edges| && g.edges[..|old(g.edges)|] == old(g.edges)
    ensures forall k :: |old(g.edges)| <= k < |g.edges| ==> EdgeOk(m, g.nodes, g.edges[k], DistinctTargets(queue0))
  {
    var e := new Cell[m.height, m.width]((y: nat, x: nat) => Cell(Unvisited, None, Pos(x, y)));
    ghost var apart := DistinctTargets(queue0);
    ghost var s := FreshGrid(m);
    ghost var stamp: map<Pos, nat> := map[];
    ghost var n := 0;
    FreshExploring(m, g.nodes, queue0);
    var queue := queue0;
    while queue != []
      invariant g.Valid() && g.nodes == old(g.nodes) && Mirror(e, s)
      invariant Exploring(m, s, stamp, n, g.nodes, queue, apart)
      invariant |old(g.edges)| <= |g.edges| && g.edges[..|old(g.edges)|] == old(g.edges)
      invariant forall k :: |old(g.edges)| <= k < |g.edges| ==> EdgeOk(m, g.nodes, g.edges[k], apart)
      decreases |UnvisitedCells(s)|, |queue|
    {
      ghost var edges := g.edges;
      queue, s, stamp, n := ProcessItem(m, g, e, queue, s, stamp, n, apart);
      EdgesGrow(m, old(g.edges), edges, g.edges, g.nodes, apart);
    }
  }

  lemma EdgesGrow(m: Mask, edges0: seq<Edge>, edgesMid: seq<Edge>, edges: seq<Edge>, nodes: seq<Node>, apart: bool)
    requires m.Valid() && |edges0| <= |edgesMid| && edgesMid[..|edges0|] == edges0
    requires forall k :: |edges0| <= k < |edgesMid| ==> EdgeOk(m, nodes, edgesMid[k], apart)
    requires |edgesMid| <= |edges| && edges[..|edgesMid|] == edgesMid
    requires forall k :: |edgesMid| <= k < |edges| ==> EdgeOk(m, nodes, edges[k], apart)
    ensures |edges0| <= |edges| && edges[..|edges0|] == edges0
    ensures forall k :: |edges0| <= k < |edges| ==> EdgeOk(m, nodes, edges[k], apart)
  {
    assert forall k :: |edges0| <= k < |edgesMid| ==> edges[k] == edgesMid[k];
  }
}
