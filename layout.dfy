/**
 * The rectangles the UTF-8 diagrams draw over a row of bit cells, counted in
 * whole cells (the drawing multiplies every cell index by one cell size).
 */
module Layout {

  /** Cells [start, start + width) of a row; shaded boxes are filled grey, the others only stroked. */
  datatype Box = Box(start: nat, width: nat, shaded: bool)

  predicate Covers(b: Box, i: nat)
  {
    b.start <= i < b.start + b.width
  }

  /** How many of the boxes cover cell i. */
  function CoverCount(boxes: seq<Box>, i: nat): nat
  {
    if boxes == [] then 0
    else (if Covers(boxes[0], i) then 1 else 0) + CoverCount(boxes[1..], i)
  }

  /**
   * The boxes, in whatever order they are drawn, cut the `total` cells of a row
   * into pieces: none is empty or sticks out, and every cell lies in exactly one.
   */
  predicate Partitions(boxes: seq<Box>, total: nat)
  {
    && (forall k | 0 <= k < |boxes| :: 0 < boxes[k].width && boxes[k].start + boxes[k].width <= total)
    && (forall i | 0 <= i < total :: CoverCount(boxes, i) == 1)
  }

  lemma {:induction false} CoverAtLeastOne(boxes: seq<Box>, i: nat, k: nat)
    requires k < |boxes| && Covers(boxes[k], i)
    ensures CoverCount(boxes, i) >= 1
  {
    if k > 0 {
      CoverAtLeastOne(boxes[1..], i, k - 1);
    }
  }

  /** In a partition the one box covering a cell is unique. */
  lemma {:induction false} CoverUnique(boxes: seq<Box>, i: nat, k1: nat, k2: nat)
    requires k1 < |boxes| && k2 < |boxes|
    requires CoverCount(boxes, i) == 1
    requires Covers(boxes[k1], i) && Covers(boxes[k2], i)
    ensures k1 == k2
  {
    var rest := boxes[1..];
    if k1 > 0 && k2 > 0 {
      CoverAtLeastOne(rest, i, k1 - 1);
      CoverUnique(rest, i, k1 - 1, k2 - 1);
    } else if k1 > 0 {
      CoverAtLeastOne(rest, i, k1 - 1);
    } else if k2 > 0 {
      CoverAtLeastOne(rest, i, k2 - 1);
    }
  }
}
