/**
 * The pixel grid shared by every stage of the topology extractor: positions,
 * the thinned skeleton mask, the fixed ring of eight neighbour offsets and the
 * bounds-checked step onto that ring, and 8-connectivity through foreground.
 */
module Grid {

  datatype Option<T> = None | Some(value: T)

  /** A pixel position, x being the column and y the row. */
  datatype Pos = Pos(x: nat, y: nat)

  /**
   * The thinned skeleton mask: `rows[y][x]` is true on a skeleton pixel.
   * `width` and `height` are the two dimensions of the underlying array.
   */
  datatype Mask = Mask(width: nat, height: nat, rows: seq<seq<bool>>) {

    predicate Valid() {
      |rows| == height && forall y :: 0 <= y < |rows| ==> |rows[y]| == width
    }

    predicate InBounds(p: Pos) {
      p.x < width && p.y < height
    }

    /**
     * A checked array read at signed coordinates. A negative coordinate cast
     * to an unsigned index lands far outside the array, so it reads as
     * absent just like one past the last row or column.
     */
    function Get(x: int, y: int): Option<bool>
      requires Valid()
    {
      if 0 <= x < width && 0 <= y < height then Some(rows[y][x]) else None
    }

    /** An in-bounds skeleton pixel. */
    predicate IsFg(p: Pos)
      requires Valid()
    {
      InBounds(p) && rows[p.y][p.x]
    }
  }

  /** The eight neighbour offsets (dx, dy), clockwise from straight up. */
  const RIM: seq<(int, int)> :=
    [(0, -1), (1, -1), (1, 0), (1, 1), (0, 1), (-1, 1), (-1, 0), (-1, -1)]

  /** Two distinct pixels that touch, orthogonally or diagonally. */
  predicate Adjacent(p: Pos, q: Pos) {
    p != q && -1 <= q.x - p.x <= 1 && -1 <= q.y - p.y <= 1
  }

  /**
   * One step from `p` along rim offset `i`, or None when the step leaves
   * the `width` x `height` grid.
   */
  function NeighboringPos(p: Pos, width: nat, height: nat, i: nat): (r: Option<Pos>)
    requires i < 8
    ensures r.Some? <==> 0 <= p.x + RIM[i].0 < width && 0 <= p.y + RIM[i].1 < height
    ensures r.Some? ==> r.value.x == p.x + RIM[i].0 && r.value.y == p.y + RIM[i].1
    ensures r.Some? ==> Adjacent(p, r.value)
  {
    var x := p.x + RIM[i].0;
    var y := p.y + RIM[i].1;
    if x < 0 || x >= width || y < 0 || y >= height then None
    else Some(Pos(x, y))
  }

  /** The rim covers every in-bounds pixel that touches `p`. */
  lemma RimIndexOf(p: Pos, q: Pos, width: nat, height: nat) returns (i: nat)
    requires Adjacent(p, q) && q.x < width && q.y < height
    ensures i < 8 && NeighboringPos(p, width, height, i) == Some(q)
  {
    var dx, dy := q.x - p.x, q.y - p.y;
    i := if dx == 0 && dy == -1 then 0
         else if dx == 1 && dy == -1 then 1
         else if dx == 1 && dy == 0 then 2
         else if dx == 1 && dy == 1 then 3
         else if dx == 0 && dy == 1 then 4
         else if dx == -1 && dy == 1 then 5
         else if dx == -1 && dy == 0 then 6
         else 7;
  }

  /** The set of all skeleton pixels. */
  function FgSet(m: Mask): (s: set<Pos>)
    requires m.Valid()
    ensures forall p :: p in s <==> m.IsFg(p)
  {
    set x, y | 0 <= x < m.width && 0 <= y < m.height && m.rows[y][x] :: Pos(x, y)
  }

  /**
   * A walk from `path[0]` to its last pixel: each step goes to a touching
   * pixel, and every pixel stepped onto is a skeleton pixel.
   */
  ghost predicate WalkBetween(m: Mask, path: seq<Pos>, s: Pos, q: Pos)
    requires m.Valid()
  {
    && |path| >= 1 && path[0] == s && path[|path| - 1] == q
    && forall k :: 0 <= k < |path| - 1 ==> StepAt(m, path, k)
  }

  /** Step `k` of a walk goes to a touching skeleton pixel. */
  ghost predicate StepAt(m: Mask, path: seq<Pos>, k: int)
    requires m.Valid() && 0 <= k < |path| - 1
  {
    Adjacent(path[k], path[k + 1]) && m.IsFg(path[k + 1])
  }

  /** `q` can be reached from `s` through 8-connected skeleton pixels. */
  ghost predicate Reachable(m: Mask, s: Pos, q: Pos)
    requires m.Valid()
  {
    exists path :: WalkBetween(m, path, s, q)
  }

  /** A set of pixels that no step through the skeleton can leave. */
  ghost predicate Closed(m: Mask, s: set<Pos>)
    requires m.Valid()
  {
    forall p, q :: p in s && Adjacent(p, q) && m.IsFg(q) ==> q in s
  }

  lemma ReachableRefl(m: Mask, s: Pos)
    requires m.Valid()
    ensures Reachable(m, s, s)
  {
    assert WalkBetween(m, [s], s, s);
  }

  /** Reachability extends by one step onto a touching skeleton pixel. */
  lemma ReachableStep(m: Mask, s: Pos, p: Pos, q: Pos)
    requires m.Valid() && Reachable(m, s, p) && Adjacent(p, q) && m.IsFg(q)
    ensures Reachable(m, s, q)
  {
    var path :| WalkBetween(m, path, s, p);
    var ext := path + [q];
    forall k | 0 <= k < |ext| - 1
      ensures StepAt(m, ext, k)
    {
      if k < |path| - 1 {
        assert StepAt(m, path, k);
      }
    }
    assert WalkBetween(m, ext, s, q);
  }

  /** Between skeleton pixels reachability is symmetric. */
  lemma {:induction false} ReachableSymmetric(m: Mask, s: Pos, q: Pos)
    requires m.Valid() && m.IsFg(s) && Reachable(m, s, q)
    ensures Reachable(m, q, s)
  {
    var path :| WalkBetween(m, path, s, q);
    var rev := seq(|path|, k requires 0 <= k < |path| => path[|path| - 1 - k]);
    forall k | 0 <= k < |rev| - 1
      ensures StepAt(m, rev, k)
    {
      var j := |path| - 2 - k;
      assert rev[k] == path[j + 1] && rev[k + 1] == path[j];
      assert StepAt(m, path, j);
      if j > 0 {
        assert StepAt(m, path, j - 1);
      }
    }
    assert WalkBetween(m, rev, q, s);
  }

  /** Nothing reachable from inside a closed set lies outside it. */
  lemma {:induction false} ClosedContainsReachable(m: Mask, c: set<Pos>, s: Pos, q: Pos)
    requires m.Valid() && Closed(m, c) && s in c && Reachable(m, s, q)
    ensures q in c
  {
    var path :| WalkBetween(m, path, s, q);
    var k := 0;
    while k < |path| - 1
      invariant 0 <= k < |path| && path[k] in c
    {
      assert StepAt(m, path, k);
      k := k + 1;
    }
  }
}
