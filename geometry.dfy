/**
 The records the texture packer works on: a source image reduced to its
 identity and pixel size, a horizontal shelf of the atlas, and the
 axis-aligned destination rectangle a source image is assigned.
 */
module Geometry {

  /** A source image awaiting placement; the pixel payload is not modelled. */
  datatype Rect = Rect(id: int, width: nat, height: nat)

  /** A packing row: its top edge `y`, its fixed `height`, and the width used so far. */
  datatype Shelf = Shelf(y: nat, height: nat, width: nat)

  /** A destination rectangle in canvas coordinates, half-open: [x0, x1) x [y0, y1). */
  datatype Placement = Placement(x0: int, y0: int, x1: int, y1: int)

  function Max(a: int, b: int): (m: int)
    ensures m >= a && m >= b
    ensures m == a || m == b
  {
    if a > b then a else b
  }

  /** Two destination rectangles share no pixel. */
  predicate Disjoint(p: Placement, q: Placement)
  {
    p.x1 <= q.x0 || q.x1 <= p.x0 || p.y1 <= q.y0 || q.y1 <= p.y0
  }

  /** No two entries of a placement map share a pixel. */
  ghost predicate PairwiseDisjoint(placed: map<int, Placement>)
  {
    forall a, b :: a in placed && b in placed && a != b ==> Disjoint(placed[a], placed[b])
  }

  /** The placement lies inside the canvas (0,0)-(width,height). */
  predicate Inside(p: Placement, width: int, height: int)
  {
    0 <= p.x0 <= p.x1 <= width && 0 <= p.y0 <= p.y1 <= height
  }

  /** No two rectangles of the sequence carry the same identity. */
  ghost predicate DistinctIds(rects: seq<Rect>)
  {
    forall i, j :: 0 <= i < j < |rects| ==> rects[i].id != rects[j].id
  }

  /** The identities of the rectangles of a sequence. */
  ghost function Ids(rects: seq<Rect>): set<int>
  {
    set i | 0 <= i < |rects| :: rects[i].id
  }
}
