/**
 * The component seeder: one representative skeleton pixel for every
 * 8-connected component of the skeleton.
 */
module Seeds {
  import opened Grid

  /** Pixel `p` is reachable from one of the `seeds`. */
  ghost predicate Covered(m: Mask, seeds: seq<Pos>, p: Pos)
    requires m.Valid()
  {
    exists k :: 0 <= k < |seeds| && Reachable(m, seeds[k], p)
  }

  /** No seed can be reached from another one. */
  ghost predicate Separated(m: Mask, seeds: seq<Pos>)
    requires m.Valid()
  {
    forall i, j :: 0 <= i < |seeds| && 0 <= j < |seeds| && i != j ==> !Reachable(m, seeds[i], seeds[j])
  }

  predicate Distinct(s: seq<Pos>) {
    forall i, j :: 0 <= i < j < |s| ==> s[i] != s[j]
  }

  /** `unvisited` holds exactly the skeleton pixels scanned before column x, row y. */
  ghost predicate ScannedBefore(m: Mask, unvisited: set<Pos>, x: nat, y: nat)
    requires m.Valid()
  {
    forall p :: p in unvisited <==> m.IsFg(p) && (p.x < x || (p.x == x && p.y < y))
  }

  lemma CoveredExtend(m: Mask, seeds: seq<Pos>, seed: Pos, p: Pos)
    requires m.Valid() && (Covered(m, seeds, p) || Reachable(m, seed, p))
    ensures Covered(m, seeds + [seed], p)
  {
    if Reachable(m, seed, p) {
      assert (seeds + [seed])[|seeds|] == seed;
    } else {
      var k :| 0 <= k < |seeds| && Reachable(m, seeds[k], p);
      assert (seeds + [seed])[k] == seeds[k];
    }
  }

  /**
   * The pixels still unvisited and the pixels removed so far split the
   * skeleton, and no pixel has been removed twice.
   */
  ghost predicate Partition(m: Mask, unvisited: set<Pos>, removed: seq<Pos>)
    requires m.Valid()
  {
    && (forall p :: p in unvisited ==> m.IsFg(p))
    && (forall p :: p in removed ==> m.IsFg(p))
    && (forall p :: m.IsFg(p) ==> (p in unvisited <==> p !in removed))
    && Distinct(removed)
  }

  /** Every removed pixel outside `pending` has no unvisited skeleton neighbour. */
  ghost predicate ClosedBut(m: Mask, unvisited: set<Pos>, removed: seq<Pos>, pending: seq<Pos>)
    requires m.Valid()
  {
    forall p, q :: p in removed && p !in pending && Adjacent(p, q) && m.IsFg(q) ==> q !in unvisited
  }

  /**
   * One pass over the rim of `point` during a flood fill: every unvisited
   * skeleton neighbour is removed from `unvisited` and queued. Afterwards no
   * skeleton neighbour of `point` is left unvisited.
   */
  method VisitRim(m: Mask, point: Pos, ghost seed: Pos, unvisited0: set<Pos>, queue0: seq<Pos>, ghost removed0: seq<Pos>)
    returns (unvisited: set<Pos>, queue: seq<Pos>, ghost removed: seq<Pos>)
    requires m.Valid() && Partition(m, unvisited0, removed0) && Reachable(m, seed, point)
    requires forall q :: q in queue0 ==> q in removed0 && Reachable(m, seed, q)
    requires ClosedBut(m, unvisited0, removed0, queue0 + [point])
    ensures Partition(m, unvisited, removed)
    ensures forall q :: q in queue ==> q in removed && Reachable(m, seed, q)
    ensures ClosedBut(m, unvisited, removed, queue)
    ensures forall q :: Adjacent(point, q) && m.IsFg(q) ==> q !in unvisited
    ensures unvisited <= unvisited0 && removed0 <= removed && queue0 <= queue
    ensures forall p :: p in removed && p !in removed0 ==> Reachable(m, seed, p)
    ensures |unvisited| + |queue| == |unvisited0| + |queue0|
  {
    unvisited, queue, removed := unvisited0, queue0, removed0;
    for i := 0 to 8
      invariant Partition(m, unvisited, removed)
      invariant forall q :: q in queue ==> q in removed && Reachable(m, seed, q)
      invariant ClosedBut(m, unvisited, removed, queue + [point])
      invariant forall j :: 0 <= j < i && NeighboringPos(point, m.width, m.height, j).Some?
                  && m.IsFg(NeighboringPos(point, m.width, m.height, j).value)
                  ==> NeighboringPos(point, m.width, m.height, j).value !in unvisited
      invariant unvisited <= unvisited0 && removed0 <= removed && queue0 <= queue
      invariant forall p :: p in removed && p !in removed0 ==> Reachable(m, seed, p)
      invariant |unvisited| + |queue| == |unvisited0| + |queue0|
    {
      match NeighboringPos(point, m.width, m.height, i) {
        case Some(pos) =>
          if m.rows[pos.y][pos.x] && pos in unvisited {
            unvisited := unvisited - {pos};
            queue := queue + [pos];
            removed := removed + [pos];
            ReachableStep(m, seed, point, pos);
          }
        case None =>
      }
    }
    forall q | Adjacent(point, q) && m.IsFg(q)
      ensures q !in unvisited
    {
      var j := RimIndexOf(point, q, m.width, m.height);
    }
  }

  /**
   * The flood fill from one seed: afterwards exactly the pixels reachable
   * from the seed have been removed, on top of a closed set of earlier
   * removals, so the removed pixels again form a closed set.
   */
  method FloodFill(m: Mask, seed: Pos, unvisited0: set<Pos>, ghost removed0: seq<Pos>)
    returns (unvisited: set<Pos>, ghost removed: seq<Pos>)
    requires m.Valid() && Partition(m, unvisited0, removed0) && seed in unvisited0
    requires Closed(m, FgSet(m) - unvisited0)
    ensures Partition(m, unvisited, removed) && Closed(m, FgSet(m) - unvisited)
    ensures unvisited < unvisited0 && |unvisited| < |unvisited0| && seed !in unvisited && removed0 < removed
    ensures forall p :: p in removed && p !in removed0 ==> Reachable(m, seed, p)
  {
    unvisited := unvisited0 - {seed};
    removed := removed0 + [seed];
    var queue := [seed];
    ReachableRefl(m, seed);
    while queue != []
      invariant Partition(m, unvisited, removed)
      invariant forall q :: q in queue ==> q in removed && Reachable(m, seed, q)
      invariant forall p :: p in removed && p !in removed0 ==> Reachable(m, seed, p)
      invariant ClosedBut(m, unvisited, removed, queue)
      invariant unvisited <= unvisited0 - {seed} && removed0 < removed
      decreases |unvisited|, |queue|
    {
      ghost var pending := queue;
      var point := queue[0];
      queue := queue[1..];
      assert forall p :: p in queue + [point] <==> p in pending;
      unvisited, queue, removed := VisitRim(m, point, seed, unvisited, queue, removed);
    }
  }

  /** The scan over every column and row that collects the skeleton pixels. */
  method CollectForeground(m: Mask) returns (unvisited: set<Pos>)
    requires m.Valid()
    ensures forall p :: p in unvisited <==> m.IsFg(p)
  {
    unvisited := {};
    for x := 0 to m.width
      invariant ScannedBefore(m, unvisited, x, 0)
    {
      for y := 0 to m.height
        invariant ScannedBefore(m, unvisited, x, y)
      {
        if m.rows[y][x] {
          unvisited := unvisited + {Pos(x, y)};
        }
      }
    }
  }

  /**
   * A seed picked outside a closed set that holds all earlier seeds is
   * neither reachable from them nor reaches them.
   */
  lemma NewSeedSeparated(m: Mask, seeds: seq<Pos>, done: set<Pos>, seed: Pos)
    requires m.Valid() && Separated(m, seeds) && Closed(m, done) && m.IsFg(seed) && seed !in done
    requires forall k :: 0 <= k < |seeds| ==> seeds[k] in done
    ensures Separated(m, seeds + [seed])
  {
    var s := seeds + [seed];
    forall i, j | 0 <= i < |s| && 0 <= j < |s| && i != j
      ensures !Reachable(m, s[i], s[j])
    {
      if i == |seeds| && Reachable(m, seed, s[j]) {
        ReachableSymmetric(m, seed, s[j]);
        ClosedContainsReachable(m, done, s[j], seed);
      } else if j == |seeds| && Reachable(m, s[i], seed) {
        ClosedContainsReachable(m, done, s[i], seed);
      }
    }
  }

  /**
   * The seeder's loop invariant: the removed pixels are closed under steps
   * through the skeleton, each is reachable from some seed, the seeds are
   * removed pixels, and no seed reaches another.
   */
  ghost predicate Seeding(m: Mask, seeds: seq<Pos>, unvisited: set<Pos>, removed: seq<Pos>)
    requires m.Valid()
  {
    && Partition(m, unvisited, removed)
    && (forall k :: 0 <= k < |seeds| ==> seeds[k] in removed)
    && Separated(m, seeds)
    && (forall p :: p in removed ==> Covered(m, seeds, p))
    && Closed(m, FgSet(m) - unvisited)
    && (seeds == [] ==> removed == [])
  }

  /**
   * One round of the seeder: an arbitrary unvisited pixel becomes a seed and
   * its whole component is flood-filled out of the unvisited set.
   */
  method AddComponent(m: Mask, seeds0: seq<Pos>, unvisited0: set<Pos>, ghost removed0: seq<Pos>)
    returns (seeds: seq<Pos>, unvisited: set<Pos>, ghost removed: seq<Pos>)
    requires m.Valid() && unvisited0 != {} && Seeding(m, seeds0, unvisited0, removed0)
    ensures Seeding(m, seeds, unvisited, removed) && |unvisited| < |unvisited0|
  {
    // The source takes whichever pixel the hash set yields first.
    var seed :| seed in unvisited0;
    NewSeedSeparated(m, seeds0, FgSet(m) - unvisited0, seed);
    unvisited, removed := FloodFill(m, seed, unvisited0, removed0);
    seeds := seeds0 + [seed];
    forall p | p in removed
      ensures Covered(m, seeds, p)
    {
      CoveredExtend(m, seeds0, seed, p);
    }
  }

  /**
   * Every seed is a skeleton pixel, no seed reaches another, and every
   * skeleton pixel is reachable from some seed: one seed per component. The
   * ghost `removed` lists the pixels in the order they leave the unvisited
   * set: each skeleton pixel leaves it exactly once.
   */
  method FindSeedPoints(m: Mask) returns (seeds: seq<Pos>, ghost removed: seq<Pos>)
    requires m.Valid()
    ensures forall k :: 0 <= k < |seeds| ==> m.IsFg(seeds[k])
    ensures Separated(m, seeds)
    ensures forall p :: m.IsFg(p) ==> Covered(m, seeds, p)
    ensures seeds == [] <==> FgSet(m) == {}
    ensures Distinct(removed) && forall p :: p in removed <==> m.IsFg(p)
  {
    var unvisited := CollectForeground(m);

    seeds := [];
    removed := [];
    while unvisited != {}
      invariant Seeding(m, seeds, unvisited, removed)
      decreases |unvisited|
    {
      seeds, unvisited, removed := AddComponent(m, seeds, unvisited, removed);
    }
    if seeds != [] {
      assert seeds[0] in FgSet(m);
    } else {
      assert forall p :: p !in FgSet(m);
    }
  }
}
