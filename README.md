# Shelf-packing texture atlas, modelled in Dafny

The program packs a directory of images into one texture atlas. It keeps
the files whose extension is `.png`, `.jpg`, `.jpeg`, `.gif` or `.bmp`.
It decodes them, gives the i-th file the identity `i + 1`, and sorts the
rectangles by descending height. A first-fit shelf packer then places them
in horizontal shelves. Each shelf's used width is bounded by a limit that
the command line calls `maxheight`, except a shelf holding a single image
wider than the limit. The result is a canvas size and a map
from identity to destination rectangle.

This project models that core:

- `geometry.dfy` (module `Geometry`): the `Rectangle` and `Shelf` records
  (pixel payload dropped), destination rectangles, and non-overlap.
- `packing.dfy` (module `ShelfPacking`): the packing loop of
  `generateAtlas`. `Place`/`Pack` are the reference definition of one
  step and of a whole run. `PlaceRect` is the inner `for … break` loop
  with its `packed` flag, proved equal to `Place`; `GenerateAtlas` is the
  outer loop, proved equal to `Pack`.
  The lemmas prove first-fit choice, contiguous shelves, non-overlap,
  shape preservation, the row-width bound and a tight canvas.
- `ordering.dfy` (module `HeightOrder`): `loadImages` without its
  goroutines. It assigns identities before sorting, returns some failing
  file's error or the rectangles, and sorts in place by descending height.
- `extension.dfy` (module `ImageFiles`): `isImageFile` and the
  `filepath.Ext` it switches on.
- `atlas.dfy` (module `Atlas`): loading followed by packing, as `main`
  chains them. Every file ends with exactly one placement of its own size.

Points of the code's behaviour worth knowing:

- Image sizes are `nat`, not positive. The initial shelf has height zero
  and keeps it. A zero-height image goes on that shelf whenever the
  shelf's used width plus the image's width is within the limit
  (`FlatOnZeroShelf`). Otherwise it goes on the first later shelf that
  passes the fit test, or opens a new zero-high shelf when none does
  (`FlatRectanglesOverflowZeroShelf`).
- A row of images of positive height, none taller than the first, fits on
  one shelf when their widths add up to at most the limit: heights 100, 100, 80 with widths 50,
  60, 40 under a limit of 200 give a 150 × 100 canvas, and the 80-high
  image is placed 40 × 80, not as tall as its shelf (`OneShelfWhenNarrow`,
  `OneShelfInInputOrder`).
- The `maxheight` value never bounds the canvas height. It bounds only
  the used width of each shelf, so the model calls it a row-width limit.
  An image wider than the limit still gets a shelf of its own, which then
  exceeds the limit (`OverWideOpensShelf`).

## Model

| member | source | states |
|---|---|---|
| `ShelfPacking.Fits` | main.go:164 | the fit test: the rectangle is no taller than the shelf and the shelf's used width plus the rectangle's width is within the limit |
| `ShelfPacking.PutOnShelf` | main.go:165-170 | the fit branch: the rectangle goes at `(shelf.Width, shelf.Y)` with its own size, shelf k widens by its width, `maxWidth` becomes the max with the new width |
| `ShelfPacking.PutOnNewShelf` | main.go:175-181 | the new-shelf branch: a shelf `(last.Y + last.Height, Height, Width)` is appended, the rectangle goes at its left end, `maxWidth` becomes the max with its width |
| `ShelfPacking.Place` | main.go:161-182 | one outer iteration: the fit branch on the first fitting shelf, else the new-shelf branch; the shelf list stays non-empty |
| `ShelfPacking.Init` | main.go:157-159 | the starting state: an empty placement map, the single shelf `(0, 0, 0)` and `maxWidth` 0 |
| `ShelfPacking.Pack` | main.go:157-183 | the state after the outer loop has placed the rectangles in input order; the shelf list is never empty |
| `ShelfPacking.CanvasHeight` | main.go:185 | the canvas height is the bottom of the last shelf |
| `ShelfPacking.FirstFit` | main.go:163-164 | the index chosen is the first shelf passing the fit test (`Height <= shelf.Height` and `shelf.Width + Width <= limit`); every earlier shelf fails it; the index is the shelf count exactly when none passes |
| `ShelfPacking.PlaceOnFirstFit` | main.go:163-172 | when shelf k passes the fit test and no earlier shelf does, the step puts the rectangle on shelf k |
| `ShelfPacking.PlaceOnNewShelf` | main.go:175-182 | when no shelf passes the fit test, the step opens a new shelf below the last |
| `ShelfPacking.PlaceIsFirstFit` | main.go:161-182 | if some shelf fits, the rectangle goes at `(shelf.Width, shelf.Y)` of the lowest fitting shelf, whose width grows by the rectangle's; otherwise a shelf `(last.Y + last.Height, Height, Width)` is appended and the rectangle goes at x = 0; `maxWidth` becomes the max with the new width |
| `ShelfPacking.ShelfAbove` | main.go:176 | because each new shelf starts at the bottom of the last, every shelf lies entirely above every later one |
| `ShelfPacking.RightOfUsedIsFree` | main.go:164-166 | a placement at the used width of a fitting shelf, within its band, overlaps no earlier placement |
| `ShelfPacking.BelowLastIsFree` | main.go:175-178 | a placement on a newly opened shelf overlaps no earlier placement |
| `ShelfPacking.FitKeepsValid` | main.go:163-172 | the fit branch keeps the state invariant: top shelf at y = 0, contiguous shelves, `maxWidth` the largest shelf width, every placement inside a shelf's used band, placements pairwise disjoint |
| `ShelfPacking.OpenKeepsValid` | main.go:175-182 | the new-shelf branch keeps the same invariant |
| `ShelfPacking.PlaceKeepsValid` | main.go:161-182 | one iteration of the outer loop keeps the invariant |
| `ShelfPacking.PackValid` | main.go:157-183 | every state of the run, from the single zero shelf on, satisfies the invariant |
| `ShelfPacking.PlaceGrows` | main.go:164-178 | one step keeps every shelf's `Y` and `Height`, never shrinks a `Width`, and a shelf it widens stays within the limit |
| `ShelfPacking.PackGrows` | main.go:161-183 | from any point of the run to its end, shelves keep `Y` and `Height`, widths only grow, a shelf widened after creation is within the limit, and a shelf already over the limit is never changed again. Such a shelf is either the initial shelf under a negative limit or a shelf opened by a rectangle wider than the limit |
| `ShelfPacking.PackDisjoint` | main.go:188-190 | no two placements overlap, so drawing them in any order gives the same canvas |
| `ShelfPacking.PackBoundingBox` | main.go:158-185 | the top shelf is at y = 0, each shelf starts where the previous ends, the canvas width is the largest used width of any shelf (attained by one), and the canvas height reaches the bottom of every shelf |
| `ShelfPacking.PackInsideCanvas` | main.go:185-186 | every placement lies inside `(0,0)-(maxWidth, last.Y + last.Height)` |
| `ShelfPacking.PackKeys` | main.go:165-178 | the placement map has an entry for exactly the identities of the input rectangles |
| `ShelfPacking.PackShapes` | main.go:165-178 | with distinct identities, every rectangle's placement has exactly its width and height: no scaling, no rotation |
| `ShelfPacking.PackGuarantees` | main.go:156-192 | the placement map is pairwise disjoint, inside the canvas, keyed by exactly the input identities, and of the right sizes |
| `ShelfPacking.OneShelfWhenNarrow` | main.go:158-185 | if every height is positive and at most the first one, and all widths together are within the limit, the run ends with the zero shelf and one shelf at y = 0 as high as the first rectangle and as wide as all together; the canvas is that wide and high |
| `ShelfPacking.OneShelfInInputOrder` | main.go:161-172 | under the same conditions and with distinct identities, the i-th rectangle is placed at x = the widths before it, y = 0, with its own width and height |
| `ShelfPacking.OverWideOpensShelf` | main.go:164-181 | in any state, a rectangle wider than the limit fits no shelf, opens a shelf of its own, and that shelf's width exceeds the limit |
| `ShelfPacking.OverWideRectangle` | main.go:175-181 | example: a 300 × 20 rectangle under limit 200 gets the shelf `(0, 20, 300)`, and the canvas is 300 × 20 |
| `ShelfPacking.FlatOnZeroShelf` | main.go:158-169 | in any state whose first shelf is zero high, a zero-height rectangle goes on that shelf whenever the shelf's used width plus its width is within the limit |
| `ShelfPacking.FlatRectangleOnZeroShelf` | main.go:158-169 | example: a 30 × 0 rectangle under limit 200 lands on the initial shelf, leaving the canvas 30 × 0 |
| `ShelfPacking.FlatRectanglesOverflowZeroShelf` | main.go:161-181 | example: two 150 × 0 rectangles under limit 200; the second no longer fits the initial shelf and opens a second zero-high shelf at y = 0 |
| `ShelfPacking.PlaceRect` | main.go:161-182 | the inner loop with its `packed` flag and `break` computes exactly one `Place` step |
| `ShelfPacking.GenerateAtlas` | main.go:156-185 | the outer loop computes exactly `Pack`; hence placements are pairwise disjoint, inside the `maxWidth × totalHeight` canvas, one per identity, of each rectangle's own size; empty input gives a 0 × 0 canvas and an empty map |
| `HeightOrder.Ingest` | main.go:113-118 | the i-th decoded file becomes the rectangle with identity i + 1 and its decoded width and height |
| `HeightOrder.IngestIds` | main.go:113-114 | the identities assigned before sorting are distinct and are exactly 1..n |
| `HeightOrder.PermutationKeepsIds` | main.go:129-131 | reordering the rectangles keeps the set of identities and their distinctness |
| `HeightOrder.Insert` | main.go:129-131 | one insertion pass extends the non-increasing prefix by one element, as a permutation, without touching the rest |
| `HeightOrder.SortByHeight` | main.go:129-131 | the array ends non-increasing in height and is a permutation of its old contents |
| `HeightOrder.LoadImages` | main.go:99-134 | it fails exactly when some file failed, with that file's path and cause; otherwise it returns the rectangles `(i + 1, width, height)` as a permutation, non-increasing in height, with distinct identities exactly 1..n |
| `ImageFiles.Ext` | main.go:89 | the extension is the suffix starting at a '.' with no further '.' or '/', or empty exactly when the final path element has no '.' |
| `ImageFiles.IsImageFile` | main.go:88-95 | a file is kept exactly when its extension is one of `.png .jpg .jpeg .gif .bmp`, spelled in lower case |
| `ImageFiles.IsImageFileIff` | main.go:88-95 | a path is accepted exactly when the suffix from the last '.' of its final element is one of `.png .jpg .jpeg .gif .bmp` |
| `ImageFiles.ExtFromLastDot` | main.go:89 | a '.' followed up to the end by neither '.' nor '/' starts the extension |
| `ImageFiles.LowerCaseAccepted` | main.go:88-95 | `a/b.gif` is accepted |
| `ImageFiles.UpperCaseRejected` | main.go:88-95 | `a/b.GIF` is rejected: the comparison is case-sensitive |
| `ImageFiles.LastDotOfLastElement` | main.go:88-95 | `a.bmp/b` and `a.bmp.c` are rejected: only the last dot of the final element counts |
| `Atlas.BuildAtlas` | main.go:41-47 | on success the layout is exactly the first-fit packing (`Pack`) of some height-sorted permutation of the decoded rectangles, with its canvas width and height; every file i has exactly one placement, under identity i + 1, of its decoded size; the placements are disjoint and inside the canvas; on failure some failing file's error is returned |

## Left out

- The goroutines, `sync.WaitGroup` and error channel of `loadImages` (main.go:99-127): the files are visited one after another, and since the channel's order depends on scheduling, `LoadImages` promises only that the reported error belongs to some failed file.
- `loadImage` (file open and image decoding) and `collectImageFiles` (directory walk): I/O and codec calls. Each file's decoded size or failure is a parameter (`Decoded`).
- `parseFlags`: flag handling and `os.Exit`.
- `image.NewRGBA`, `draw.Draw` pixel copying and `saveAtlas` PNG encoding: pixel buffers and a codec. Only the canvas size and the placements are kept.
- `printAtlasInfo`: console output.
- The image payload of `Rectangle`.
- Go's 64-bit `int`: sums of widths and shelf offsets are unbounded here, so wrap-around on absurdly large inputs is not modelled.
- `SortByHeight`: the library sort is replaced by an insertion sort. Only its contract (non-increasing heights, permutation) is claimed, and the order among equal heights is left unspecified, as the library sort is not stable.
- `PackShapes`: requires distinct identities. `loadImages` always supplies them. With repeated identities the Go map would keep only the last placement per identity.
- `PackGrows`: states that a shelf over the limit is never widened or moved again. It does not count the rectangles on that shelf.
- `ShelfPacking.PlaceRect` and `ShelfPacking.GenerateAtlas`: the shelf slice and the placement map are values that the loops reassign. The Go code updates the slice element in place, but nothing else holds a reference to it, so no aliasing is lost.
- `ImageFiles.Ext`: models `filepath.Ext` on Unix, where '/' is the only separator; Windows separators are not modelled.
