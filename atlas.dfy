/**
 The part of `main` (main.go:41-47) that joins loading and packing: the
 decoded files become rectangles, which the shelf packer places. Reading
 files, drawing pixels, writing `atlas.png` and printing the report are
 not modelled; what remains is the canvas size and the placement of every
 file.
 */
module Atlas {
  import opened Geometry
  import opened HeightOrder
  import opened ShelfPacking

  /** The canvas size and the placement per rectangle identity. */
  datatype Layout = Layout(width: nat, height: nat, placed: map<int, Placement>)

  /**
   Load, sort and pack. On success the file at index i (identity i + 1)
   has exactly one placement, of exactly its decoded size, no two
   placements overlap, and all lie inside the canvas.
   */
  method BuildAtlas(files: seq<string>, decoded: seq<Decoded>, limit: int) returns (res: Result<Layout, LoadError>)
    requires |files| == |decoded|
    ensures res.Err? <==> exists i :: 0 <= i < |decoded| && decoded[i].Failure?
    ensures res.Err? ==> exists i :: 0 <= i < |decoded| && decoded[i].Failure? &&
                                     res.error == LoadError(files[i], decoded[i].cause)
    ensures res.Ok? ==> exists s ::
              && multiset(s) == multiset(Ingest(decoded)) && SortedByHeight(s)
              && res.value == Layout(Pack(s, limit).maxWidth, CanvasHeight(Pack(s, limit)), Pack(s, limit).placed)
    ensures res.Ok? ==> forall id :: id in res.value.placed <==> 1 <= id <= |files|
    ensures res.Ok? ==> forall i :: 0 <= i < |decoded| ==>
              decoded[i].Image? && Size(res.value.placed[i + 1]) == (decoded[i].width, decoded[i].height)
    ensures res.Ok? ==> PairwiseDisjoint(res.value.placed)
    ensures res.Ok? ==> forall id :: id in res.value.placed ==>
              Inside(res.value.placed[id], res.value.width, res.value.height)
  {
    var loaded := LoadImages(files, decoded);
    if loaded.Err? {
      return Err(loaded.error);
    }
    var rects := loaded.value;
    var width, height, placed := GenerateAtlas(rects, limit);
    forall i | 0 <= i < |decoded|
      ensures decoded[i].Image? && Size(placed[i + 1]) == (decoded[i].width, decoded[i].height)
    {
      var r := Ingest(decoded)[i];
      assert r in multiset(rects);
      var j :| 0 <= j < |rects| && rects[j] == r;
    }
    res := Ok(Layout(width, height, placed));
  }
}
