/**
 The shelf packer of `generateAtlas` (main.go:156-185).

 `Place` and `Pack` are the reference definition of one step and of the
 whole run; `GenerateAtlas` is the imperative loop, proved equal to `Pack`.
 The lemmas state what the packing guarantees: first-fit choice, shape
 preservation, contiguous shelves, non-overlap, the row-width bound and a
 tight bounding canvas.

 `limit` is the value the program reads from its `maxheight` flag; its only
 effect is to bound the width used on each shelf, so it is called a
 row-width limit here.
 */
module ShelfPacking {
  import opened Geometry

  /** The packer's state between two rectangles. */
  datatype PackState = PackState(shelves: seq<Shelf>, placed: map<int, Placement>, maxWidth: nat)

  /** The fit test of the packing loop. */
  predicate Fits(s: Shelf, r: Rect, limit: int)
  {
    r.height <= s.height && s.width + r.width <= limit
  }

  /** Index of the first shelf `r` fits on, or `|shelves|` when none does. */
  function FirstFit(shelves: seq<Shelf>, r: Rect, limit: int): (k: nat)
    ensures k <= |shelves|
    ensures k < |shelves| ==> Fits(shelves[k], r, limit)
    ensures forall j :: 0 <= j < k ==> !Fits(shelves[j], r, limit)
  {
    if |shelves| == 0 then 0
    else if Fits(shelves[0], r, limit) then 0
    else 1 + FirstFit(shelves[1..], r, limit)
  }

  function Last(shelves: seq<Shelf>): Shelf
    requires |shelves| > 0
  {
    shelves[|shelves| - 1]
  }

  /** Put `r` on shelf `k` at the shelf's used width, and widen the shelf by `r`'s width. */
  function PutOnShelf(st: PackState, r: Rect, k: nat): PackState
    requires k < |st.shelves|
  {
    var s := st.shelves[k];
    PackState(st.shelves[k := Shelf(s.y, s.height, s.width + r.width)],
              st.placed[r.id := Placement(s.width, s.y, s.width + r.width, s.y + r.height)],
              Max(st.maxWidth, s.width + r.width))
  }

  /** Open a shelf of `r`'s height and width directly below the last one, and put `r` at its left end. */
  function PutOnNewShelf(st: PackState, r: Rect): PackState
    requires |st.shelves| > 0
  {
    var below := Last(st.shelves).y + Last(st.shelves).height;
    PackState(st.shelves + [Shelf(below, r.height, r.width)],
              st.placed[r.id := Placement(0, below, r.width, below + r.height)],
              Max(st.maxWidth, r.width))
  }

  /** One iteration of the outer loop: place `r` on the first fitting shelf, or open a shelf below the last. */
  function Place(st: PackState, r: Rect, limit: int): (st': PackState)
    requires |st.shelves| > 0
    ensures |st'.shelves| > 0
  {
    var k := FirstFit(st.shelves, r, limit);
    if k < |st.shelves| then PutOnShelf(st, r, k) else PutOnNewShelf(st, r)
  }

  /** The state before any rectangle: one empty shelf at the top. */
  function Init(): PackState
  {
    PackState([Shelf(0, 0, 0)], map[], 0)
  }

  /** The state after packing `rects` in order. */
  function Pack(rects: seq<Rect>, limit: int): (st: PackState)
    ensures |st.shelves| > 0
  {
    if |rects| == 0 then Init()
    else Place(Pack(rects[..|rects| - 1], limit), rects[|rects| - 1], limit)
  }

  /** Packing one more rectangle of the input is one more `Place`. */
  lemma PackStep(rects: seq<Rect>, n: nat, limit: int)
    requires n < |rects|
    ensures Pack(rects[..n + 1], limit) == Place(Pack(rects[..n], limit), rects[n], limit)
  {
    assert rects[..n + 1][..n] == rects[..n];
  }

  /** The canvas height: the bottom edge of the last shelf. */
  function CanvasHeight(st: PackState): nat
    requires |st.shelves| > 0
  {
    Last(st.shelves).y + Last(st.shelves).height
  }

  // ----- invariants of the packing state -----

  /** Each shelf starts where the one above it ends. */
  ghost predicate Contiguous(shelves: seq<Shelf>)
  {
    forall i :: 0 < i < |shelves| ==> shelves[i].y == shelves[i - 1].y + shelves[i - 1].height
  }

  /** The placement lies within the used part of the shelf's band. */
  predicate InBand(p: Placement, s: Shelf)
  {
    0 <= p.x0 <= p.x1 <= s.width && s.y <= p.y0 <= p.y1 <= s.y + s.height
  }

  /** `m` is the largest used width of any shelf. */
  ghost predicate IsMaxWidth(shelves: seq<Shelf>, m: int)
  {
    && (forall k :: 0 <= k < |shelves| ==> shelves[k].width <= m)
    && (exists k :: 0 <= k < |shelves| && shelves[k].width == m)
  }

  ghost predicate Valid(st: PackState)
  {
    && |st.shelves| > 0
    && st.shelves[0].y == 0
    && Contiguous(st.shelves)
    && IsMaxWidth(st.shelves, st.maxWidth)
    && AllInBands(st.placed, st.shelves)
    && PairwiseDisjoint(st.placed)
  }

  /** A shelf lies entirely above every later shelf. */
  lemma {:induction false} ShelfAbove(shelves: seq<Shelf>, m: nat, k: nat)
    requires Contiguous(shelves)
    requires m < k < |shelves|
    ensures shelves[m].y + shelves[m].height <= shelves[k].y
    decreases k - m
  {
    if m + 1 < k {
      ShelfAbove(shelves, m, k - 1);
    }
  }

  /** Adding a placement disjoint from all others keeps the map pairwise disjoint. */
  lemma InsertDisjoint(placed: map<int, Placement>, id: int, p: Placement)
    requires PairwiseDisjoint(placed)
    requires forall b :: b in placed && b != id ==> Disjoint(p, placed[b])
    ensures PairwiseDisjoint(placed[id := p])
  {
    var placed' := placed[id := p];
    forall a, b | a in placed' && b in placed' && a != b
      ensures Disjoint(placed'[a], placed'[b])
    {
      if a == id {
        assert Disjoint(p, placed[b]);
      } else if b == id {
        assert Disjoint(p, placed[a]);
      } else {
        assert Disjoint(placed[a], placed[b]);
      }
    }
  }

  /** Every placement lies in the band of some shelf. */
  ghost predicate AllInBands(placed: map<int, Placement>, shelves: seq<Shelf>)
  {
    forall id :: id in placed ==> exists k :: 0 <= k < |shelves| && InBand(placed[id], shelves[k])
  }

  /** `after` keeps every shelf of `before` at its place and height, with no less width. */
  ghost predicate Widens(before: seq<Shelf>, after: seq<Shelf>)
  {
    && |before| <= |after|
    && forall i :: 0 <= i < |before| ==>
         after[i].y == before[i].y && after[i].height == before[i].height && before[i].width <= after[i].width
  }

  /** Widening the shelves keeps every old placement in a band. */
  lemma BandsWiden(placed: map<int, Placement>, shelves: seq<Shelf>, shelves': seq<Shelf>)
    requires AllInBands(placed, shelves)
    requires Widens(shelves, shelves')
    ensures AllInBands(placed, shelves')
  {
    forall id | id in placed
      ensures exists j :: 0 <= j < |shelves'| && InBand(placed[id], shelves'[j])
    {
      var j :| 0 <= j < |shelves| && InBand(placed[id], shelves[j]);
      assert InBand(placed[id], shelves'[j]);
    }
  }

  /** Adding a placement that lies in a band keeps every placement in a band. */
  lemma BandsInsert(placed: map<int, Placement>, shelves: seq<Shelf>, id: int, p: Placement, k: nat)
    requires AllInBands(placed, shelves)
    requires k < |shelves| && InBand(p, shelves[k])
    ensures AllInBands(placed[id := p], shelves)
  {
    var placed' := placed[id := p];
    forall b | b in placed'
      ensures exists j :: 0 <= j < |shelves| && InBand(placed'[b], shelves[j])
    {
      if b == id {
        assert InBand(placed'[b], shelves[k]);
      } else {
        var j :| 0 <= j < |shelves| && InBand(placed[b], shelves[j]);
        assert InBand(placed'[b], shelves[j]);
      }
    }
  }

  /** A placement right of the used part of shelf `k`, within its band, meets no placement already made. */
  lemma RightOfUsedIsFree(placed: map<int, Placement>, shelves: seq<Shelf>, k: nat, p: Placement)
    requires AllInBands(placed, shelves) && Contiguous(shelves)
    requires k < |shelves|
    requires shelves[k].width <= p.x0 && shelves[k].y <= p.y0 && p.y1 <= shelves[k].y + shelves[k].height
    ensures forall b :: b in placed ==> Disjoint(p, placed[b])
  {
    forall b | b in placed
      ensures Disjoint(p, placed[b])
    {
      var j :| 0 <= j < |shelves| && InBand(placed[b], shelves[j]);
      if j < k {
        ShelfAbove(shelves, j, k);
      } else if k < j {
        ShelfAbove(shelves, k, j);
      }
    }
  }

  /** A placement below the last shelf meets no placement already made. */
  lemma BelowLastIsFree(placed: map<int, Placement>, shelves: seq<Shelf>, p: Placement)
    requires AllInBands(placed, shelves) && Contiguous(shelves)
    requires |shelves| > 0 && Last(shelves).y + Last(shelves).height <= p.y0
    ensures forall b :: b in placed ==> Disjoint(p, placed[b])
  {
    forall b | b in placed
      ensures Disjoint(p, placed[b])
    {
      var j :| 0 <= j < |shelves| && InBand(placed[b], shelves[j]);
      if j < |shelves| - 1 {
        ShelfAbove(shelves, j, |shelves| - 1);
      }
    }
  }

  /** Placing on the first fitting shelf preserves the invariants. */
  lemma FitKeepsValid(st: PackState, r: Rect, limit: int)
    requires Valid(st)
    requires FirstFit(st.shelves, r, limit) < |st.shelves|
    ensures Valid(Place(st, r, limit))
  {
    var shelves := st.shelves;
    var k := FirstFit(shelves, r, limit);
    var s := shelves[k];
    var p := Placement(s.width, s.y, s.width + r.width, s.y + r.height);
    var shelves' := shelves[k := s.(width := s.width + r.width)];
    var m := Max(st.maxWidth, s.width + r.width);
    assert Place(st, r, limit) == PackState(shelves', st.placed[r.id := p], m);
    assert Widens(shelves, shelves');
    assert Contiguous(shelves');
    var w :| 0 <= w < |shelves| && shelves[w].width == st.maxWidth;
    assert shelves'[k].width == m || shelves'[w].width == m;
    assert IsMaxWidth(shelves', m);
    BandsWiden(st.placed, shelves, shelves');
    BandsInsert(st.placed, shelves', r.id, p, k);
    RightOfUsedIsFree(st.placed, shelves, k, p);
    InsertDisjoint(st.placed, r.id, p);
  }

  /** Opening a new shelf below the last preserves the invariants. */
  lemma OpenKeepsValid(st: PackState, r: Rect, limit: int)
    requires Valid(st)
    requires FirstFit(st.shelves, r, limit) == |st.shelves|
    ensures Valid(Place(st, r, limit))
  {
    var shelves := st.shelves;
    var below := Last(shelves).y + Last(shelves).height;
    var p := Placement(0, below, r.width, below + r.height);
    var shelves' := shelves + [Shelf(below, r.height, r.width)];
    var m := Max(st.maxWidth, r.width);
    assert Place(st, r, limit) == PackState(shelves', st.placed[r.id := p], m);
    assert Widens(shelves, shelves');
    assert Contiguous(shelves');
    var w :| 0 <= w < |shelves| && shelves[w].width == st.maxWidth;
    assert shelves'[|shelves|].width == m || shelves'[w].width == m;
    assert IsMaxWidth(shelves', m);
    BandsWiden(st.placed, shelves, shelves');
    BandsInsert(st.placed, shelves', r.id, p, |shelves|);
    BelowLastIsFree(st.placed, shelves, p);
    InsertDisjoint(st.placed, r.id, p);
  }

  /** Placing one rectangle preserves every invariant of the packing state. */
  lemma PlaceKeepsValid(st: PackState, r: Rect, limit: int)
    requires Valid(st)
    ensures Valid(Place(st, r, limit))
  {
    if FirstFit(st.shelves, r, limit) < |st.shelves| {
      FitKeepsValid(st, r, limit);
    } else {
      OpenKeepsValid(st, r, limit);
    }
  }

  /** Every state the packer reaches satisfies the invariants. */
  lemma {:induction false} PackValid(rects: seq<Rect>, limit: int)
    ensures Valid(Pack(rects, limit))
  {
    if |rects| > 0 {
      PackValid(rects[..|rects| - 1], limit);
      PlaceKeepsValid(Pack(rects[..|rects| - 1], limit), rects[|rects| - 1], limit);
    }
  }

  // ----- what the packing guarantees -----

  /** A rectangle that fits shelf `k` and no earlier shelf goes on shelf `k`. */
  lemma PlaceOnFirstFit(st: PackState, r: Rect, limit: int, k: nat)
    requires k < |st.shelves| && Fits(st.shelves[k], r, limit)
    requires forall j :: 0 <= j < k ==> !Fits(st.shelves[j], r, limit)
    ensures Place(st, r, limit) == PutOnShelf(st, r, k)
  {
    assert FirstFit(st.shelves, r, limit) == k;
  }

  /** A rectangle that fits no shelf opens a new one. */
  lemma PlaceOnNewShelf(st: PackState, r: Rect, limit: int)
    requires |st.shelves| > 0
    requires forall j :: 0 <= j < |st.shelves| ==> !Fits(st.shelves[j], r, limit)
    ensures Place(st, r, limit) == PutOnNewShelf(st, r)
  {
    assert FirstFit(st.shelves, r, limit) == |st.shelves|;
  }

  /** Each rectangle goes on the lowest shelf it fits on, at that shelf's used width; a new shelf is opened directly below the last only when none fits. */
  lemma PlaceIsFirstFit(st: PackState, r: Rect, limit: int)
    requires |st.shelves| > 0
    ensures var st' := Place(st, r, limit);
      && r.id in st'.placed
      && if exists k :: 0 <= k < |st.shelves| && Fits(st.shelves[k], r, limit) then
           exists k :: 0 <= k < |st.shelves| && Fits(st.shelves[k], r, limit)
             && (forall j :: 0 <= j < k ==> !Fits(st.shelves[j], r, limit))
             && st'.placed[r.id] == Placement(st.shelves[k].width, st.shelves[k].y,
                                              st.shelves[k].width + r.width, st.shelves[k].y + r.height)
             && st'.shelves == st.shelves[k := st.shelves[k].(width := st.shelves[k].width + r.width)]
             && st'.maxWidth == Max(st.maxWidth, st.shelves[k].width + r.width)
         else
           var below := Last(st.shelves).y + Last(st.shelves).height;
           && st'.placed[r.id] == Placement(0, below, r.width, below + r.height)
           && st'.shelves == st.shelves + [Shelf(below, r.height, r.width)]
           && st'.maxWidth == Max(st.maxWidth, r.width)
  {
    var k := FirstFit(st.shelves, r, limit);
    if k < |st.shelves| {
      PlaceOnFirstFit(st, r, limit, k);
      assert Place(st, r, limit).shelves == st.shelves[k := st.shelves[k].(width := st.shelves[k].width + r.width)];
    } else {
      PlaceOnNewShelf(st, r, limit);
    }
  }

  /** Shelves keep their place and height, only widen, and any widening after creation stays within the limit. */
  ghost predicate Grows(before: seq<Shelf>, after: seq<Shelf>, limit: int)
  {
    && Widens(before, after)
    && forall i :: 0 <= i < |before| && after[i].width != before[i].width ==> after[i].width <= limit
  }

  lemma PlaceGrows(st: PackState, r: Rect, limit: int)
    requires |st.shelves| > 0
    ensures Grows(st.shelves, Place(st, r, limit).shelves, limit)
  {
    var k := FirstFit(st.shelves, r, limit);
    if k < |st.shelves| {
      assert Fits(st.shelves[k], r, limit);
    }
  }

  lemma GrowsTransitive(a: seq<Shelf>, b: seq<Shelf>, c: seq<Shelf>, limit: int)
    requires Grows(a, b, limit) && Grows(b, c, limit)
    ensures Grows(a, c, limit)
  {
  }

  /**
   Between any point of the run and its end, every shelf keeps its `y` and
   `height`, its used width never shrinks, a shelf widened after creation
   stays within the limit, and a shelf already over the limit is never
   changed again. Such a shelf is either the initial shelf under a
   negative limit or a shelf opened by a rectangle wider than the limit.
   */
  lemma {:induction false} PackGrows(rects: seq<Rect>, n: nat, limit: int)
    requires n <= |rects|
    ensures Grows(Pack(rects[..n], limit).shelves, Pack(rects, limit).shelves, limit)
    ensures var before := Pack(rects[..n], limit).shelves;
      forall k :: 0 <= k < |before| && before[k].width > limit ==> Pack(rects, limit).shelves[k] == before[k]
    decreases |rects| - n
  {
    if n == |rects| {
      assert rects[..n] == rects;
    } else {
      var init := rects[..|rects| - 1];
      assert init[..n] == rects[..n];
      PackGrows(init, n, limit);
      PlaceGrows(Pack(init, limit), rects[|rects| - 1], limit);
      GrowsTransitive(Pack(rects[..n], limit).shelves, Pack(init, limit).shelves, Pack(rects, limit).shelves, limit);
    }
  }

  /** No two placements overlap, so the drawing loop may copy them in any order. */
  lemma PackDisjoint(rects: seq<Rect>, limit: int)
    ensures PairwiseDisjoint(Pack(rects, limit).placed)
  {
    PackValid(rects, limit);
  }

  /**
   The shelves are stacked from the top edge without gaps, the canvas width
   is the largest used width of any shelf, and the canvas height reaches
   the bottom of every shelf.
   */
  lemma PackBoundingBox(rects: seq<Rect>, limit: int)
    ensures var st := Pack(rects, limit);
      && st.shelves[0].y == 0
      && Contiguous(st.shelves)
      && IsMaxWidth(st.shelves, st.maxWidth)
      && (forall k :: 0 <= k < |st.shelves| ==> st.shelves[k].y + st.shelves[k].height <= CanvasHeight(st))
  {
    PackValid(rects, limit);
    ShelvesEndAboveCanvas(Pack(rects, limit));
  }

  /** In a valid state no shelf reaches below the last shelf's bottom. */
  lemma ShelvesEndAboveCanvas(st: PackState)
    requires Valid(st)
    ensures forall k :: 0 <= k < |st.shelves| ==> st.shelves[k].y + st.shelves[k].height <= CanvasHeight(st)
  {
    forall k | 0 <= k < |st.shelves| - 1
      ensures st.shelves[k].y + st.shelves[k].height <= CanvasHeight(st)
    {
      ShelfAbove(st.shelves, k, |st.shelves| - 1);
    }
  }

  /** Every placement lies inside the canvas (0,0)-(maxWidth, last shelf's bottom). */
  lemma PackInsideCanvas(rects: seq<Rect>, limit: int)
    ensures var st := Pack(rects, limit);
      forall id :: id in st.placed ==> Inside(st.placed[id], st.maxWidth, CanvasHeight(st))
  {
    PackValid(rects, limit);
    PackBoundingBox(rects, limit);
    var st := Pack(rects, limit);
    forall id | id in st.placed
      ensures Inside(st.placed[id], st.maxWidth, CanvasHeight(st))
    {
      var k :| 0 <= k < |st.shelves| && InBand(st.placed[id], st.shelves[k]);
    }
  }

  /** The placement map has an entry for exactly the identities of the input. */
  lemma {:induction false} PackKeys(rects: seq<Rect>, limit: int)
    ensures Pack(rects, limit).placed.Keys == Ids(rects)
  {
    if |rects| > 0 {
      var init := rects[..|rects| - 1];
      PackKeys(init, limit);
      assert Ids(rects) == Ids(init) + {rects[|rects| - 1].id} by {
        forall x | x in Ids(rects) ensures x in Ids(init) + {rects[|rects| - 1].id} {
          var i :| 0 <= i < |rects| && rects[i].id == x;
          if i < |rects| - 1 {
            assert init[i].id == x;
          }
        }
        forall x | x in Ids(init) ensures x in Ids(rects) {
          var i :| 0 <= i < |init| && init[i].id == x;
          assert rects[i].id == x;
        }
      }
    }
  }

  /** Width and height of a placement. */
  function Size(p: Placement): (int, int)
  {
    (p.x1 - p.x0, p.y1 - p.y0)
  }

  /** With distinct identities, each rectangle is placed at exactly its own size: no scaling, no rotation. */
  lemma {:induction false} PackShapes(rects: seq<Rect>, limit: int)
    requires DistinctIds(rects)
    ensures var placed := Pack(rects, limit).placed;
      forall i :: 0 <= i < |rects| ==>
        rects[i].id in placed && Size(placed[rects[i].id]) == (rects[i].width, rects[i].height)
  {
    if |rects| > 0 {
      var init := rects[..|rects| - 1];
      var last := rects[|rects| - 1];
      assert DistinctIds(init);
      PackShapes(init, limit);
      var before := Pack(init, limit);
      var k := FirstFit(before.shelves, last, limit);
      var placed := Pack(rects, limit).placed;
      forall i | 0 <= i < |rects|
        ensures rects[i].id in placed && Size(placed[rects[i].id]) == (rects[i].width, rects[i].height)
      {
        if i < |rects| - 1 {
          assert init[i] == rects[i];
          assert rects[i].id != last.id;
        }
      }
    }
  }

  /** The guarantees of the packing loop, gathered for `GenerateAtlas`. */
  lemma PackGuarantees(rects: seq<Rect>, limit: int)
    ensures var st := Pack(rects, limit);
      && PairwiseDisjoint(st.placed)
      && (forall id :: id in st.placed ==> Inside(st.placed[id], st.maxWidth, CanvasHeight(st)))
      && st.placed.Keys == Ids(rects)
      && (DistinctIds(rects) ==> forall i :: 0 <= i < |rects| ==>
            Size(st.placed[rects[i].id]) == (rects[i].width, rects[i].height))
  {
    PackDisjoint(rects, limit);
    PackInsideCanvas(rects, limit);
    PackKeys(rects, limit);
    if DistinctIds(rects) {
      PackShapes(rects, limit);
    }
  }

  // ----- worked cases -----

  /** Total width of a sequence of rectangles. */
  function TotalWidth(rects: seq<Rect>): nat
  {
    if |rects| == 0 then 0 else TotalWidth(rects[..|rects| - 1]) + rects[|rects| - 1].width
  }

  /**
   When no rectangle is taller than the first, none has height zero, and
   all widths together stay within the limit, everything goes on a single
   shelf at the top: the canvas is as wide as the widths together and as
   high as the first rectangle. (Heights 100, 100, 80 with widths 50, 60,
   40 under a limit of 200 is an instance: a 150 x 100 canvas.)
   */
  lemma {:induction false} OneShelfWhenNarrow(rects: seq<Rect>, limit: int)
    requires |rects| > 0
    requires forall i :: 0 <= i < |rects| ==> 0 < rects[i].height <= rects[0].height
    requires TotalWidth(rects) <= limit
    ensures Pack(rects, limit).shelves == [Shelf(0, 0, 0), Shelf(0, rects[0].height, TotalWidth(rects))]
    ensures Pack(rects, limit).maxWidth == TotalWidth(rects)
    ensures CanvasHeight(Pack(rects, limit)) == rects[0].height
  {
    var n := |rects|;
    var r := rects[n - 1];
    var init := rects[..n - 1];
    if n == 1 {
      assert init == [];
      PlaceOnNewShelf(Init(), r, limit);
    } else {
      assert init[0] == rects[0];
      OneShelfWhenNarrow(init, limit);
      var before := Pack(init, limit);
      assert !Fits(before.shelves[0], r, limit);
      PlaceOnFirstFit(before, r, limit, 1);
    }
  }

  /**
   Under the same conditions, with distinct identities, the rectangles lie
   left to right in input order, each starting where the previous ends, all
   flush with the top edge.
   */
  lemma {:induction false} OneShelfInInputOrder(rects: seq<Rect>, limit: int)
    requires |rects| > 0
    requires forall i :: 0 <= i < |rects| ==> 0 < rects[i].height <= rects[0].height
    requires TotalWidth(rects) <= limit
    requires DistinctIds(rects)
    ensures forall i :: 0 <= i < |rects| ==>
      && rects[i].id in Pack(rects, limit).placed
      && Pack(rects, limit).placed[rects[i].id] ==
           Placement(TotalWidth(rects[..i]), 0, TotalWidth(rects[..i + 1]), rects[i].height)
  {
    var n := |rects|;
    var r := rects[n - 1];
    var init := rects[..n - 1];
    assert rects[..n] == rects;
    if n == 1 {
      assert init == [];
      PlaceOnNewShelf(Init(), r, limit);
    } else {
      assert init[0] == rects[0];
      OneShelfWhenNarrow(init, limit);
      OneShelfInInputOrder(init, limit);
      var before := Pack(init, limit);
      assert !Fits(before.shelves[0], r, limit);
      PlaceOnFirstFit(before, r, limit, 1);
      var placed := Pack(rects, limit).placed;
      assert placed == before.placed[r.id := Placement(TotalWidth(init), 0, TotalWidth(rects), r.height)];
      forall i | 0 <= i < n - 1
        ensures && rects[i].id in placed
                && placed[rects[i].id] == Placement(TotalWidth(rects[..i]), 0, TotalWidth(rects[..i + 1]), rects[i].height)
      {
        assert init[i] == rects[i] && init[..i] == rects[..i] && init[..i + 1] == rects[..i + 1];
        assert rects[i].id != r.id;
      }
    }
  }

  /**
   A rectangle wider than the limit fits no shelf, so it always opens a
   shelf of its own, and that shelf's width exceeds the limit.
   */
  lemma OverWideOpensShelf(st: PackState, r: Rect, limit: int)
    requires |st.shelves| > 0 && r.width > limit
    ensures Place(st, r, limit) == PutOnNewShelf(st, r)
    ensures Last(Place(st, r, limit).shelves).width > limit
  {
    PlaceOnNewShelf(st, r, limit);
  }

  /** Example: a 300-wide rectangle under a limit of 200 gets a shelf of its own. */
  lemma OverWideRectangle()
    ensures var st := Pack([Rect(7, 300, 20)], 200);
      && st.placed == map[7 := Placement(0, 0, 300, 20)]
      && st.shelves == [Shelf(0, 0, 0), Shelf(0, 20, 300)]
      && st.maxWidth == 300 && CanvasHeight(st) == 20
  {
    assert [Rect(7, 300, 20)][..0] == [];
  }

  /**
   The initial shelf has height zero and keeps it. A rectangle of height
   zero goes on it whenever that shelf's used width plus the rectangle's
   width is within the limit.
   */
  lemma FlatOnZeroShelf(st: PackState, r: Rect, limit: int)
    requires |st.shelves| > 0 && st.shelves[0].height == 0
    requires r.height == 0 && st.shelves[0].width + r.width <= limit
    ensures Place(st, r, limit) == PutOnShelf(st, r, 0)
  {
    PlaceOnFirstFit(st, r, limit, 0);
  }

  /** Example: a 30 x 0 rectangle under a limit of 200 lands on the initial shelf, leaving the canvas zero high. */
  lemma FlatRectangleOnZeroShelf()
    ensures var st := Pack([Rect(4, 30, 0)], 200);
      && st.placed == map[4 := Placement(0, 0, 30, 0)]
      && st.shelves == [Shelf(0, 0, 30)]
      && st.maxWidth == 30 && CanvasHeight(st) == 0
  {
    assert [Rect(4, 30, 0)][..0] == [];
  }

  /**
   Example: two 150 x 0 rectangles under a limit of 200. The first lands on
   the initial shelf; the second no longer fits there and opens a second
   zero-high shelf, also at y = 0.
   */
  lemma FlatRectanglesOverflowZeroShelf()
    ensures Pack([Rect(1, 150, 0), Rect(2, 150, 0)], 200).shelves == [Shelf(0, 0, 150), Shelf(0, 0, 150)]
  {
    var rects := [Rect(1, 150, 0), Rect(2, 150, 0)];
    PackStep(rects, 0, 200);
    assert rects[..0] == [];
    FlatOnZeroShelf(Init(), rects[0], 200);
    var st := Pack(rects[..1], 200);
    assert st == PutOnShelf(Init(), rects[0], 0);
    assert st.shelves == [Shelf(0, 0, 150)];
    assert rects[..2] == rects;
    PlaceOnNewShelf(st, rects[1], 200);
  }

  // ----- the packing loop -----

  /**
   One pass of the outer loop of `generateAtlas`: scan the shelves in
   order and put `rect` on the first that fits; if none does, open a shelf
   below the last. Returns the new shelves, placements and maximum width.
   */
  method PlaceRect(shelves: seq<Shelf>, placed: map<int, Placement>, maxWidth: nat, rect: Rect, limit: int)
    returns (shelves': seq<Shelf>, placed': map<int, Placement>, maxWidth': nat)
    requires |shelves| > 0
    ensures PackState(shelves', placed', maxWidth') == Place(PackState(shelves, placed, maxWidth), rect, limit)
  {
    ghost var before := PackState(shelves, placed, maxWidth);
    shelves', placed', maxWidth' := shelves, placed, maxWidth;
    var packed := false;
    for i := 0 to |shelves|
      invariant !packed
      invariant forall j :: 0 <= j < i ==> !Fits(shelves[j], rect, limit)
    {
      var shelf := shelves[i];
      if rect.height <= shelf.height && shelf.width + rect.width <= limit {
        PlaceOnFirstFit(before, rect, limit, i);
        placed' := placed[rect.id := Placement(shelf.width, shelf.y, shelf.width + rect.width, shelf.y + rect.height)];
        shelves' := shelves[i := Shelf(shelf.y, shelf.height, shelf.width + rect.width)];
        if shelves'[i].width > maxWidth {
          maxWidth' := shelves'[i].width;
        }
        packed := true;
        break;
      }
    }
    if !packed {
      PlaceOnNewShelf(before, rect, limit);
      var last := shelves[|shelves| - 1];
      var newShelf := Shelf(last.y + last.height, rect.height, rect.width);
      shelves' := shelves + [newShelf];
      placed' := placed[rect.id := Placement(0, newShelf.y, rect.width, newShelf.y + rect.height)];
      if rect.width > maxWidth {
        maxWidth' := rect.width;
      }
    }
  }

  /**
   `generateAtlas` without the drawing: pack every rectangle in order,
   then derive the canvas size from the widest shelf and the last shelf.
   Returns the canvas width and height and the placement per rectangle
   identity.
   */
  method GenerateAtlas(rects: seq<Rect>, limit: int) returns (width: nat, height: nat, placed: map<int, Placement>)
    ensures var st := Pack(rects, limit);
      placed == st.placed && width == st.maxWidth && height == CanvasHeight(st)
    ensures PairwiseDisjoint(placed)
    ensures forall id :: id in placed ==> Inside(placed[id], width, height)
    ensures placed.Keys == Ids(rects)
    ensures DistinctIds(rects) ==> forall i :: 0 <= i < |rects| ==>
              Size(placed[rects[i].id]) == (rects[i].width, rects[i].height)
    ensures |rects| == 0 ==> width == 0 && height == 0 && placed == map[]
  {
    placed := map[];
    var shelves := [Shelf(0, 0, 0)];
    var maxWidth: nat := 0;
    for n := 0 to |rects|
      invariant PackState(shelves, placed, maxWidth) == Pack(rects[..n], limit)
    {
      PackStep(rects, n, limit);
      shelves, placed, maxWidth := PlaceRect(shelves, placed, maxWidth, rects[n], limit);
    }
    assert rects[..|rects|] == rects;
    width := maxWidth;
    height := shelves[|shelves| - 1].y + shelves[|shelves| - 1].height;
    PackGuarantees(rects, limit);
  }
}
