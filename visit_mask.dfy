/**
 * The forward visit mask used by edge tracing: which of the eight rim
 * neighbours of a pixel a frontier may step onto. A diagonal step is dropped
 * whenever one of the two orthogonal neighbours flanking it is a skeleton
 * pixel, so that a frontier does not take a diagonal shortcut beside an
 * orthogonal step and trace a second, redundant arc.
 */
module VisitMask {
  import opened Grid

  /** The neighbour along rim offset `i` exists and is a skeleton pixel. */
  predicate NeighborFg(m: Mask, p: Pos, i: nat)
    requires m.Valid() && i < 8
  {
    var n := NeighboringPos(p, m.width, m.height, i);
    n.Some? && m.rows[n.value.y][n.value.x]
  }

  /** First pass: the raw foreground mask of the eight neighbours. */
  function RawMask(m: Mask, p: Pos): seq<bool>
    requires m.Valid()
  {
    seq(8, i requires 0 <= i < 8 => NeighborFg(m, p, i))
  }

  /**
   * Second pass after its first `k` rounds, over the raw mask `raw`: round t
   * looks at the orthogonal neighbour 2t and, when it is a skeleton pixel,
   * clears the diagonals 2t - 1 and 2t + 1 (mod 8) beside it.
   */
  function ClearFlanks(raw: seq<bool>, k: nat): (r: seq<bool>)
    requires |raw| == 8 && k <= 4
    ensures |r| == 8
  {
    if k == 0 then raw
    else
      var prev := ClearFlanks(raw, k - 1);
      var t := k - 1;
      if raw[2 * t] then prev[(8 + 2 * t - 1) % 8 := false][(8 + 2 * t + 1) % 8 := false]
      else prev
  }

  /** The visit mask of pixel `p`. */
  function GetVisitMask(m: Mask, p: Pos): (r: seq<bool>)
    requires m.Valid()
    ensures |r| == 8
  {
    ClearFlanks(RawMask(m, p), 4)
  }

  /** Entry `i` after the first `k` rounds: odd entries lose a flank that is set. */
  predicate ExpectedAfter(raw: seq<bool>, k: nat, i: nat)
    requires |raw| == 8 && i < 8
  {
    if i % 2 == 0 then raw[i]
    else raw[i] && !((i - 1) / 2 < k && raw[i - 1]) && !(((i + 1) % 8) / 2 < k && raw[(i + 1) % 8])
  }

  lemma {:induction false} ClearFlanksAt(raw: seq<bool>, k: nat, i: nat)
    requires |raw| == 8 && k <= 4 && i < 8
    ensures ClearFlanks(raw, k)[i] == ExpectedAfter(raw, k, i)
  {
    if k > 0 {
      ClearFlanksAt(raw, k - 1, i);
    }
  }

  /**
   * The visit mask never allows a step off the grid or onto background; it
   * keeps every orthogonal skeleton neighbour; and it keeps a diagonal
   * skeleton neighbour exactly when neither orthogonal neighbour flanking it
   * is a skeleton pixel.
   */
  lemma VisitMaskSpec(m: Mask, p: Pos)
    requires m.Valid()
    ensures forall i :: 0 <= i < 8 && GetVisitMask(m, p)[i] ==> NeighborFg(m, p, i)
    ensures forall i :: 0 <= i < 8 && i % 2 == 0 ==> GetVisitMask(m, p)[i] == NeighborFg(m, p, i)
    ensures forall j {:trigger GetVisitMask(m, p)[j]} :: 0 <= j < 8 && j % 2 == 1 ==>
      GetVisitMask(m, p)[j] == (NeighborFg(m, p, j) && !NeighborFg(m, p, j - 1) && !NeighborFg(m, p, (j + 1) % 8))
  {
    forall i | 0 <= i < 8
      ensures GetVisitMask(m, p)[i] == ExpectedAfter(RawMask(m, p), 4, i)
    {
      ClearFlanksAt(RawMask(m, p), 4, i);
    }
  }

  /**
   * A skeleton diagonal that the mask drops is never the only way there: an
   * orthogonal skeleton neighbour of `p` touches it, so the diagonal pixel
   * stays reachable in two visible steps.
   */
  lemma DroppedDiagonalHasDetour(m: Mask, p: Pos, j: nat) returns (o: nat)
    requires m.Valid() && j < 8 && NeighborFg(m, p, j) && !GetVisitMask(m, p)[j]
    ensures o < 8 && o % 2 == 0 && GetVisitMask(m, p)[o] && NeighborFg(m, p, o)
    ensures Adjacent(NeighboringPos(p, m.width, m.height, o).value, NeighboringPos(p, m.width, m.height, j).value)
  {
    VisitMaskSpec(m, p);
    assert j % 2 == 1;
    o := if NeighborFg(m, p, j - 1) then j - 1 else (j + 1) % 8;
    FlankAdjacent(p, m.width, m.height, j, o);
  }

  /** A diagonal neighbour touches the orthogonal neighbours on either side of it. */
  lemma FlankAdjacent(p: Pos, width: nat, height: nat, j: nat, o: nat)
    requires j < 8 && j % 2 == 1 && (o == j - 1 || o == (j + 1) % 8)
    requires NeighboringPos(p, width, height, j).Some? && NeighboringPos(p, width, height, o).Some?
    ensures Adjacent(NeighboringPos(p, width, height, o).value, NeighboringPos(p, width, height, j).value)
  {
  }
}
