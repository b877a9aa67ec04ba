/**
 * The connectivity score of a skeleton pixel: how many of its eight
 * neighbours are skeleton pixels, less how many neighbouring pairs that are
 * next to each other around the rim are not broken by a background pixel.
 * Away from the border this is the number of run ends around the rim (a
 * skeleton rim cell followed clockwise by a non-skeleton one): the number of
 * separate skeleton arms that meet at the pixel, except that a full ring of
 * eight skeleton neighbours scores 0.
 */
module Scoring {
  import opened Grid

  /** The mask cell at rim offset `i` around (x, y); None when off the grid. */
  function RimCell(m: Mask, x: nat, y: nat, i: nat): (r: Option<bool>)
    requires m.Valid() && i < 8
    ensures r.Some? <==> 0 <= x + RIM[i].0 < m.width && 0 <= y + RIM[i].1 < m.height
  {
    m.Get(x + RIM[i].0, y + RIM[i].1)
  }

  /** How many of the first `n` rim cells are present skeleton pixels. */
  function AdjacentPixels(m: Mask, x: nat, y: nat, n: nat): (r: nat)
    requires m.Valid() && n <= 8
    ensures r <= n
  {
    if n == 0 then 0
    else AdjacentPixels(m, x, y, n - 1) + (if RimCell(m, x, y, n - 1) == Some(true) then 1 else 0)
  }

  /**
   * How many of the first `n` rim pairs (i, i + 1 mod 8) have no member that
   * is a present background pixel. An off-grid cell does not break a pair.
   */
  function ContiguousIntervals(m: Mask, x: nat, y: nat, n: nat): (r: nat)
    requires m.Valid() && n <= 8
    ensures r <= n
  {
    if n == 0 then 0
    else
      ContiguousIntervals(m, x, y, n - 1)
      + (if RimCell(m, x, y, n - 1) != Some(false) && RimCell(m, x, y, n % 8) != Some(false)
         then 1 else 0)
  }

  /** The connectivity score of the pixel at (x, y). */
  function PixelScore(m: Mask, x: nat, y: nat): (r: int)
    requires m.Valid()
    ensures -8 <= r <= 8
  {
    AdjacentPixels(m, x, y, 8) - ContiguousIntervals(m, x, y, 8)
  }

  /** A pixel whose whole rim lies on the grid. */
  predicate Interior(m: Mask, x: nat, y: nat) {
    1 <= x && x + 1 < m.width && 1 <= y && y + 1 < m.height
  }

  /** The rim of (x, y) as eight booleans; off-grid cells read as background. */
  function Rim(m: Mask, x: nat, y: nat): seq<bool>
    requires m.Valid()
  {
    seq(8, i requires 0 <= i < 8 => RimCell(m, x, y, i) == Some(true))
  }

  /**
   * How many of the first `n` rim positions end a run of skeleton pixels:
   * position i is set and position i + 1 (mod 8) is not.
   */
  function RunEnds(b: seq<bool>, n: nat): (r: nat)
    requires |b| == 8 && n <= 8
    ensures r <= n
  {
    if n == 0 then 0
    else RunEnds(b, n - 1) + (if b[n - 1] && !b[n % 8] then 1 else 0)
  }

  /**
   * Away from the border the score is the number of run ends around the rim
   * (a skeleton rim cell followed clockwise by a non-skeleton one), so it
   * lies between 0 and 4. This is the number of runs of consecutive skeleton
   * neighbours, except that a full ring has no end and scores 0.
   */
  lemma {:induction false} InteriorScoreCountsArms(m: Mask, x: nat, y: nat)
    requires m.Valid() && Interior(m, x, y)
    ensures PixelScore(m, x, y) == RunEnds(Rim(m, x, y), 8)
    ensures 0 <= PixelScore(m, x, y) <= 4
  {
    var b := Rim(m, x, y);
    forall i | 0 <= i < 8
      ensures RimCell(m, x, y, i).Some?
      ensures RimCell(m, x, y, i) == Some(b[i])
    {
      var c := RimCell(m, x, y, i);
      assert c.Some? && b[i] == c.value;
    }
    var n := 0;
    while n < 8
      invariant 0 <= n <= 8
      invariant AdjacentPixels(m, x, y, n) - ContiguousIntervals(m, x, y, n) == RunEnds(b, n)
    {
      n := n + 1;
    }
    // No two consecutive rim positions both end a run.
    RunEndsPairBound(b, 0);
    RunEndsPairBound(b, 2);
    RunEndsPairBound(b, 4);
    RunEndsPairBound(b, 6);
  }

  /** Positions k and k + 1 cannot both end a run. */
  lemma RunEndsPairBound(b: seq<bool>, k: nat)
    requires |b| == 8 && k + 2 <= 8
    ensures RunEnds(b, k + 2) <= RunEnds(b, k) + 1
  {
    assert RunEnds(b, k + 1) == RunEnds(b, k) + (if b[k] && !b[k + 1] then 1 else 0);
  }

  /** An interior pixel with no skeleton neighbour (an isolated dot) scores 0. */
  lemma IsolatedScoresZero(m: Mask, x: nat, y: nat)
    requires m.Valid() && Interior(m, x, y)
    requires forall i :: 0 <= i < 8 ==> RimCell(m, x, y, i) == Some(false)
    ensures PixelScore(m, x, y) == 0
  {
    InteriorScoreCountsArms(m, x, y);
    var b := Rim(m, x, y);
    assert RunEnds(b, 8) == 0 by {
      assert forall n :: 0 <= n <= 8 ==> RunEnds(b, n) == 0 by {
        forall n | 0 <= n <= 8 ensures RunEnds(b, n) == 0 {
          var k := 0;
          while k < n
            invariant 0 <= k <= n && RunEnds(b, k) == 0
          {
            k := k + 1;
          }
        }
      }
    }
  }

  /**
   * A pixel whose eight neighbours are all skeleton pixels forms one unbroken
   * ring, which has no run end, so it scores 0.
   */
  lemma FullRingScoresZero(m: Mask, x: nat, y: nat)
    requires m.Valid() && Interior(m, x, y)
    requires forall i :: 0 <= i < 8 ==> RimCell(m, x, y, i) == Some(true)
    ensures PixelScore(m, x, y) == 0
    ensures RunEnds(Rim(m, x, y), 8) == 0
  {
    InteriorScoreCountsArms(m, x, y);
    var b := Rim(m, x, y);
    var k := 0;
    while k < 8
      invariant 0 <= k <= 8 && RunEnds(b, k) == 0
    {
      assert b[(k + 1) % 8];
      k := k + 1;
    }
  }

  /** The end pixel of a line, with exactly one skeleton neighbour, scores 1. */
  lemma LineEndScoresOne(m: Mask, x: nat, y: nat, j: nat)
    requires m.Valid() && Interior(m, x, y) && j < 8
    requires forall i :: 0 <= i < 8 ==> RimCell(m, x, y, i) == Some(i == j)
    ensures PixelScore(m, x, y) == 1
  {
    InteriorScoreCountsArms(m, x, y);
    var b := Rim(m, x, y);
    var k := 0;
    while k < 8
      invariant 0 <= k <= 8 && RunEnds(b, k) == (if j < k then 1 else 0)
    {
      k := k + 1;
    }
  }

  /**
   * An inner pixel of a straight line, whose only skeleton neighbours are two
   * opposite rim cells, scores 2 and so is not a node.
   */
  lemma StraightLineScoresTwo(m: Mask, x: nat, y: nat, j: nat)
    requires m.Valid() && Interior(m, x, y) && j < 4
    requires forall i :: 0 <= i < 8 ==> RimCell(m, x, y, i) == Some(i == j || i == j + 4)
    ensures PixelScore(m, x, y) == 2
  {
    InteriorScoreCountsArms(m, x, y);
    var b := Rim(m, x, y);
    var k := 0;
    while k < 8
      invariant 0 <= k <= 8
      invariant RunEnds(b, k) == (if j < k then 1 else 0) + (if j + 4 < k then 1 else 0)
    {
      k := k + 1;
    }
  }

  /**
   * On the border an off-grid rim cell is not a neighbour but still joins
   * pairs, so the score can drop below zero: the inner pixel of a horizontal
   * line running along the top row scores -2.
   */
  lemma TopBorderLineScoresNegative(m: Mask, x: nat)
    requires m.Valid() && 1 <= x && x + 1 < m.width && m.height >= 2
    requires m.rows[0][x - 1] && m.rows[0][x + 1]
    requires !m.rows[1][x - 1] && !m.rows[1][x] && !m.rows[1][x + 1]
    ensures PixelScore(m, x, 0) == -2
  {
    assert RimCell(m, x, 0, 0) == None && RimCell(m, x, 0, 1) == None && RimCell(m, x, 0, 7) == None;
    assert RimCell(m, x, 0, 2) == Some(true) && RimCell(m, x, 0, 6) == Some(true);
    assert RimCell(m, x, 0, 3) == Some(false) && RimCell(m, x, 0, 4) == Some(false);
    assert RimCell(m, x, 0, 5) == Some(false);
    assert AdjacentPixels(m, x, 0, 1) == 0 && ContiguousIntervals(m, x, 0, 1) == 1;
    assert AdjacentPixels(m, x, 0, 2) == 0 && ContiguousIntervals(m, x, 0, 2) == 2;
    assert AdjacentPixels(m, x, 0, 3) == 1 && ContiguousIntervals(m, x, 0, 3) == 2;
    assert AdjacentPixels(m, x, 0, 4) == 1 && ContiguousIntervals(m, x, 0, 4) == 2;
    assert AdjacentPixels(m, x, 0, 5) == 1 && ContiguousIntervals(m, x, 0, 5) == 2;
    assert AdjacentPixels(m, x, 0, 6) == 1 && ContiguousIntervals(m, x, 0, 6) == 2;
    assert AdjacentPixels(m, x, 0, 7) == 2 && ContiguousIntervals(m, x, 0, 7) == 3;
    assert AdjacentPixels(m, x, 0, 8) == 2 && ContiguousIntervals(m, x, 0, 8) == 4;
  }
}
