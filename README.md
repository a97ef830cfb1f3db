# Minimum-cost curves and surfaces by graph search — a Dafny model

This project models the integer core of the MinCostSurface projection
plugin: the reduction of "find the cheapest smooth curve through a cost
image" to a single minimum cut (the optimal-surface graph search of Li et
al., 2006), and the bookkeeping around it.

- `MinCostYCurve` (file `MinCostYCurve.dfy`, reference definitions in
  `CurveGraph.dfy`) is the 2-D detector. `CreateSurfaceGraph` checks its
  input and walks a W×H cost image in array order. For each pixel it writes
  the infinite arcs into fixed-size arrays and stores a terminal-capacity
  pair. The three arrays are then appended to the detector's lists.
  `Process` hands every arc and terminal pair to a max-flow solver.
  `GetAltitudeMap` and `GetSurfaceMask` decode the solver's labels, as a
  count per column and as a 0/255 mask.
- `ImgUtils` holds the per-thread offset table (`CreateOffset`), the excerpt
  of a volume around a height map (`ZSurfaceReslice`, the nearest-slice
  version), and the size guard and position buffer of `upsample`.
- `Bands` holds the row-band arithmetic shared by the two multi-threaded
  ops. It also holds the band copy (`CopyBand`) and the write-back of a
  band's height map at its offset (`WriteMapPair`, `WriteMapSkipping`).
- `MinCost2ZSurfaceMT` is the two-surface op. Its last band absorbs the
  remainder rows. `MinCostZSurfaceMT` is the one-surface op. All its bands
  are H/T rows tall, and it skips out-of-bounds writes.
- `Grid` and `Images` hold the flat-index arithmetic of array images (first
  coordinate fastest) and the value types for planes and volumes.

Collaborators the core cannot see are parameters:
- the max-flow solver is a function from the assembled problem to a flow
  value and a per-node labelling;
- the 3-D per-tile detector is a function from a band volume to its height
  map(s), or to nothing when the tile's thread fails before writing;
- downsampling is a function from the input image to a volume.

Java exceptions on the error paths are outcomes, not preconditions:
- `NullPointer` on a first non-2-D image;
- `IndexOutOfBounds` when the arc arrays are too small, when the image has no
  pixel to zero, in `upsample` on an image with more than two dimensions and
  an output with a pixel (its position buffer has two entries), and in the
  float-factor `upsample` overload;
- `NegativeArraySize` for a negative thread count;
- `DivisionByZero` for zero threads.

Where the code behaves in a way a reader might not expect, the model follows
the code:
- A refused first call of the builder still records the image's dimensions
  (`MinCostYCurve.java:157-158`).
- Building a surface after `Process` leaves `isProcessed` set. The code has
  no invalidation.
- The arc arrays are sized with the height taken from the first dimension
  (`MinCostYCurve.java:176`). A tall image can therefore overflow them
  (`TallImageThrows`), while a square image with `maxDy <= W` never does
  (`SquareImagesBuild`). Unused slots stay (0, 0, 0, 0), and `Process` feeds
  them too, because it iterates over the allocated length.
- Above row `maxDy` the terminal weight subtracts only the cost of the
  pixel just below. The random access's relative moves end on (x, y−1),
  whichever lateral neighbours were skipped.
- The builder's out-of-bounds value is the image's own first element set
  to zero (`MinCostYCurve.java:214-215`). The call therefore zeroes pixel
  (0, 0) of the caller's image once its arrays are allocated, and the cursor
  loop reads that zero. `CreateSurfaceGraph` returns the caller's image as it
  is after the call. It stores the terminal weights of the zeroed image, and
  it throws on an image with no pixel. See "## Findings".
- Surface s (0-based, its count before the call) owns node ids
  [s·W·H, (s+1)·W·H).
- Only the two-surface op lets its last band absorb the remainder. The
  one-surface op leaves rows T·(H/T) .. H−1 of its map at zero.

## Model

| member | source | states |
|---|---|---|
| `MinCostYCurve.MinCostYCurve.constructor` | src/main/java/de/mpicbg/scf/mincostsurface/MinCostYCurve.java:56-66 | a new detector has no surface, no dimensions, empty lists, is not processed and has flow 0 |
| `MinCostYCurve.MinCostYCurve.CreateSurfaceGraph` | src/main/java/de/mpicbg/scf/mincostsurface/MinCostYCurve.java:145-293 | the outcome is the one `BuildOutcomeOf` gives for the recorded dimensions, image and `maxDy` (a null-pointer exception for a first image that is not 2-D, index-out-of-bounds for a deeper image after a 2-D one or for arcs that overflow the arrays, a refusal for other shape mismatches or a negative `maxDy`, a negative-array-size exception when the allocation formula is negative, index-out-of-bounds for an image with no pixel once the arrays are allocated); once the arrays are allocated the returned caller's image has pixel (0, 0) set to 0 and is otherwise unchanged, while an earlier refusal or exception returns it untouched; on success `nSurface` grows by one and exactly one entry (the padded arc arrays, and the terminal arrays computed from the image with pixel (0, 0) zeroed) is appended to each list; otherwise count and lists are unchanged; dimensions are recorded by the first 2-D image even when it is refused; the flag, flow and solver are untouched; the detector invariant is kept |
| `MinCostYCurve.CompareDimensions` | src/main/java/de/mpicbg/scf/mincostsurface/MinCostYCurve.java:159-163 | comparing with no recorded dimensions throws a null-pointer exception for any image with a dimension, an image with more dimensions than were recorded throws index-out-of-bounds, and otherwise the image agrees exactly when its dimensions are the leading recorded ones (a refusal when not) |
| `MinCostYCurve.MinCostYCurve.CreateSurfaceGraphWithUnitFactor` | src/main/java/de/mpicbg/scf/mincostsurface/MinCostYCurve.java:131-135 | the two-argument builder is the builder with factor 1: the same outcome, the same zeroing of the caller's pixel (0, 0), and the terminal arrays of the zeroed image with factor 1 |
| `MinCostYCurve.BuiltNeedsConsistentInput` | src/main/java/de/mpicbg/scf/mincostsurface/MinCostYCurve.java:149-169 | a built graph implies a 2-D image, `maxDy >= 0`, and dimensions equal to any recorded ones; so a negative `maxDy` or a shape mismatch is always refused |
| `MinCostYCurve.SquareImagesBuild` | src/main/java/de/mpicbg/scf/mincostsurface/MinCostYCurve.java:149-187 | a square image of side ≥ 1 with 0 ≤ `maxDy` ≤ side and matching dimensions is always built |
| `MinCostYCurve.TallImageThrows` | src/main/java/de/mpicbg/scf/mincostsurface/MinCostYCurve.java:175-187 | a 2-wide, 3-high image with `maxDy` 0 ends in an index-out-of-bounds exception, because the arrays are sized from the width alone |
| `CurveGraph.TallImageOverflows` | src/main/java/de/mpicbg/scf/mincostsurface/MinCostYCurve.java:175-180 | for that image the allocation is 6 slots while 8 arcs are written |
| `CurveGraph.SquareAllocationSuffices` | src/main/java/de/mpicbg/scf/mincostsurface/MinCostYCurve.java:175-180 | for a square image and 0 ≤ `maxDy` ≤ W the written arc count fits the allocated size |
| `CurveGraph.PixelArcsByRow` | src/main/java/de/mpicbg/scf/mincostsurface/MinCostYCurve.java:194-264 | above row `maxDy` a pixel has arcs to (x−1, y−maxDy) when x > 0, to (x+1, y−maxDy) when x < W−1, then to (x, y−1); in rows 1..maxDy only to (x, y−1); none in row 0; all infinite forward, zero backward |
| `CurveGraph.NodeInBlock` | src/main/java/de/mpicbg/scf/mincostsurface/MinCostYCurve.java:233-234 | the node of a pixel of surface s lies in [s·W·H, (s+1)·W·H) |
| `CurveGraph.PixelArcsConfined` | src/main/java/de/mpicbg/scf/mincostsurface/MinCostYCurve.java:237-264 | every arc of one pixel has weights (1e6, 0) and both ends in surface s's node block |
| `CurveGraph.ArcsUpToConfined` | src/main/java/de/mpicbg/scf/mincostsurface/MinCostYCurve.java:227-282 | after any number of cursor steps every arc written so far is confined to surface s's block |
| `CurveGraph.SurfaceArcsConfined` | src/main/java/de/mpicbg/scf/mincostsurface/MinCostYCurve.java:245-259 | all arcs of a surface are confined to its block with weights (1e6, 0) |
| `CurveGraph.PixelArcCount` | src/main/java/de/mpicbg/scf/mincostsurface/MinCostYCurve.java:237-264 | the arcs a pixel adds are the step of the closed-form row count at column x, so the running `EdgeCount` is a closed form in (x, y) |
| `CurveGraph.ArcsUpToCount` | src/main/java/de/mpicbg/scf/mincostsurface/MinCostYCurve.java:189-264 | `EdgeCount` after the cursor reaches (x, y) equals the arcs of rows 0..y−1 plus those of the first x pixels of row y |
| `CurveGraph.RowsArcCountClosedForm` | src/main/java/de/mpicbg/scf/mincostsurface/MinCostYCurve.java:189-264 | the arcs of the first y rows number W·(y−1) + 2·(W−1)·max(0, y−1−maxDy) |
| `CurveGraph.SurfaceArcCount` | src/main/java/de/mpicbg/scf/mincostsurface/MinCostYCurve.java:189-264 | the final `EdgeCount` is W·(H−1) + 2·(W−1)·max(0, H−1−maxDy) |
| `CurveGraph.ArcsUpToMonotone` | src/main/java/de/mpicbg/scf/mincostsurface/MinCostYCurve.java:249 | the arc count never decreases as the cursor advances, so an overflow at any pixel means the whole surface does not fit |
| `CurveGraph.NeighbourArcsMonotone` | src/main/java/de/mpicbg/scf/mincostsurface/MinCostYCurve.java:238-250 | later neighbours of the neighbour loop only add arcs |
| `CurveGraph.TerminalWeightByRow` | src/main/java/de/mpicbg/scf/mincostsurface/MinCostYCurve.java:231-266 | for the costs c the cursor loop reads, the weight of row 0 is −1e6 and the weight of any other row is factor·(c(x, y) − c(x, y−1)) |
| `CurveGraph.ColumnWeightTelescopes` | src/main/java/de/mpicbg/scf/mincostsurface/MinCostYCurve.java:231-266 | for the costs c the cursor loop reads, the weights of rows 1..k of a column add up to factor·(c(x, k) − c(x, 0)): the intermediate costs cancel; this is the intended property of the weights |
| `CurveGraph.ZeroFirstPixel` | src/main/java/de/mpicbg/scf/mincostsurface/MinCostYCurve.java:214-215 | the image after `firstElement().setZero()`: same dimensions, pixel 0 is 0, every other pixel unchanged |
| `CurveGraph.ZeroFirstPixelCost` | src/main/java/de/mpicbg/scf/mincostsurface/MinCostYCurve.java:214-215 | read by coordinates, the zeroed image differs from the caller's only at (0, 0), where it reads 0 |
| `CurveGraph.AsWrittenWeightByRow` | src/main/java/de/mpicbg/scf/mincostsurface/MinCostYCurve.java:214-266 | on the image as given, the builder's weights are −1e6 in row 0, factor·c(0, 1) at (0, 1), and factor·(c(x, y) − c(x, y−1)) everywhere else |
| `CurveGraph.AsWrittenColumnWeights` | src/main/java/de/mpicbg/scf/mincostsurface/MinCostYCurve.java:214-266 | as written, columns x > 0 still telescope to factor·(c(x, k) − c(x, 0)), but column 0 adds up to factor·c(0, k) for k ≥ 1 |
| `CurveGraph.TerminalPairSigns` | src/main/java/de/mpicbg/scf/mincostsurface/MinCostYCurve.java:268-280 | the stored pair is (−w, 0) for w < 0, (0, w) for w > 0 and (0, 0) for w = 0; both entries are ≥ 0, one is 0, and to-sink minus to-source gives w back |
| `MinCostYCurve.ZeroingFlipsTerminal` | src/main/java/de/mpicbg/scf/mincostsurface/MinCostYCurve.java:214-280 | the 2×2 image with costs 5, 1 / 3, 2 is built with `maxDy` 1, and pixel (0, 1) gets the sink link (0, 3) from the zeroed image instead of the source link (2, 0) of the image as given |
| `MinCostYCurve.ArcArraysRoundTrip` | src/main/java/de/mpicbg/scf/mincostsurface/MinCostYCurve.java:182-185 | splitting arcs into the edge and weight arrays and reading them back slot by slot gives the arcs again |
| `MinCostYCurve.PaddedArcs` | src/main/java/de/mpicbg/scf/mincostsurface/MinCostYCurve.java:182-185 | the stored arrays hold the written arcs first and zero slots up to the allocated size |
| `MinCostYCurve.BuiltSurfaceWellFormed` | src/main/java/de/mpicbg/scf/mincostsurface/MinCostYCurve.java:182-282 | the arrays stored for surface s are parallel; every slot is unused or an infinite arc inside block s; every terminal pair is sign-normalised |
| `MinCostYCurve.PutArc` | src/main/java/de/mpicbg/scf/mincostsurface/MinCostYCurve.java:245-249 | the four stores at `EdgeCount` append one arc to those the arrays hold |
| `MinCostYCurve.ArcArraysSnapshot` | src/main/java/de/mpicbg/scf/mincostsurface/MinCostYCurve.java:182-185 | the filled arrays are the edge and weight arrays of the padded arc list |
| `MinCostYCurve.WriteNeighbourArcs` | src/main/java/de/mpicbg/scf/mincostsurface/MinCostYCurve.java:237-252 | the neighbour loop skips neighbours outside the image, appends one arc per other neighbour, fails exactly when a slot runs out, and leaves the random access on (x, y−1) |
| `MinCostYCurve.WritePixel` | src/main/java/de/mpicbg/scf/mincostsurface/MinCostYCurve.java:230-266 | one cursor step appends exactly the pixel's arcs (or fails exactly when they do not fit) and yields the pixel's terminal weight on the image it is given, which the builder passes with pixel (0, 0) already zeroed |
| `MinCostYCurve.WriteTerminal` | src/main/java/de/mpicbg/scf/mincostsurface/MinCostYCurve.java:268-280 | the pair stored at `posIdx` is the sign-split weight; a zero weight leaves the zeroed slots |
| `MinCostYCurve.CursorLoop` | src/main/java/de/mpicbg/scf/mincostsurface/MinCostYCurve.java:221-282 | the cursor loop succeeds exactly when all arcs of the surface fit; then the arc arrays hold them in cursor order and the terminal arrays hold every pixel's pair for the image the loop reads |
| `MinCostYCurve.BuildSurfaceArrays` | src/main/java/de/mpicbg/scf/mincostsurface/MinCostYCurve.java:179-282 | the allocated and filled arrays equal the reference arc and terminal arrays of the surface |
| `MinCostYCurve.MinCostYCurve.Process` | src/main/java/de/mpicbg/scf/mincostsurface/MinCostYCurve.java:88-127 | false with flag, flow and solver unchanged when there is no surface; otherwise the solver is given `Problem()` (n·W·H nodes, the summed arc-array lengths, every arc, every terminal pair at node i·W·H + j), the flow is stored and `isProcessed` becomes true; the lists are unchanged |
| `MinCostYCurve.MinCostYCurve.AssembleProblem` | src/main/java/de/mpicbg/scf/mincostsurface/MinCostYCurve.java:94-119 | the edge-counting loop and the two feeding loops yield the problem `Problem()` describes, whose shape `ProblemWellFormed` states, and change nothing |
| `MinCostYCurve.MinCostYCurve.ProblemWellFormed` | src/main/java/de/mpicbg/scf/mincostsurface/MinCostYCurve.java:94-119 | the solver gets as many arcs as announced, each unused or an infinite arc between announced nodes, and exactly one sign-normalised terminal setting per node id in [0, nNodes), in node order |
| `MinCostYCurve.FeedArcs` | src/main/java/de/mpicbg/scf/mincostsurface/MinCostYCurve.java:106-112 | the inner edge loop sets the arcs of one surface slot by slot, in order |
| `MinCostYCurve.FeedTerminals` | src/main/java/de/mpicbg/scf/mincostsurface/MinCostYCurve.java:114-119 | the inner terminal loop sets slot j of a surface at node j + base |
| `MinCostYCurve.FedArcsCount` | src/main/java/de/mpicbg/scf/mincostsurface/MinCostYCurve.java:98-112 | the arcs fed number exactly the announced edge count (the sum of the arc-array lengths) |
| `MinCostYCurve.FedArcsOnNodes` | src/main/java/de/mpicbg/scf/mincostsurface/MinCostYCurve.java:105-112 | every fed arc is an unused slot or an infinite arc whose ends lie in [0, n·W·H) |
| `MinCostYCurve.FedTerminalsNumbering` | src/main/java/de/mpicbg/scf/mincostsurface/MinCostYCurve.java:114-119 | the terminal settings of n surfaces of p nodes go to nodes 0, 1, …, n·p−1 in order, one each |
| `MinCostYCurve.FedTerminalSlot` | src/main/java/de/mpicbg/scf/mincostsurface/MinCostYCurve.java:114-119 | slot j of surface i is set at node j + i·p with that slot's two capacities |
| `MinCostYCurve.MinCostYCurve.GetAltitudeMap` | src/main/java/de/mpicbg/scf/mincostsurface/MinCostYCurve.java:471-496 | None exactly when `surfId` ∉ [1, nSurface] or the detector is not processed; otherwise a length-W map whose entry x is the number of rows y < H whose node x + y·W + (surfId−1)·W·H is foreground, hence in [0, H] |
| `MinCostYCurve.MinCostYCurve.GetSurfaceMask` | src/main/java/de/mpicbg/scf/mincostsurface/MinCostYCurve.java:508-536 | same None conditions; otherwise W·H bytes, the byte at flat position p being 255 when node p + (surfId−1)·W·H is foreground and 0 otherwise |
| `MinCostYCurve.MinCostYCurve.DecodeSurface` | src/main/java/de/mpicbg/scf/mincostsurface/MinCostYCurve.java:471-536 | both decoders succeed under the same condition, and the altitude of every column equals that column's number of 255s in the mask |
| `MinCostYCurve.ColumnHeight` | src/main/java/de/mpicbg/scf/mincostsurface/MinCostYCurve.java:486-493 | the decoded altitude of a column never exceeds H |
| `MinCostYCurve.ColumnCountIsHeight` | src/main/java/de/mpicbg/scf/mincostsurface/MinCostYCurve.java:486-493 | the count accumulated in flat order over the whole plane is the column's number of foreground rows |
| `MinCostYCurve.PrefixColumnHeight` | src/main/java/de/mpicbg/scf/mincostsurface/MinCostYCurve.java:486-493 | if the solver labels the first k rows of a column foreground and the rest not, the decoded altitude is k |
| `MinCostYCurve.MaskMatchesAltitude` | src/main/java/de/mpicbg/scf/mincostsurface/MinCostYCurve.java:523-533 | a mask written from the labels has, in every column, as many 255s as the altitude of that column |
| `ImgUtils.CreateOffset` | src/main/java/de/mpicbg/scf/mincostsurface/img_utils.java:304-318 | a negative count fails at allocation; 0 threads give an empty table; fewer than two dimensions fail on index 1; otherwise T rows of `numDimensions` entries, all 0 except index 1 which is (dim1 / T)·d |
| `ImgUtils.OffsetsStepByBandHeight` | src/main/java/de/mpicbg/scf/mincostsurface/img_utils.java:315 | consecutive offsets differ by exactly dim1 / T, and every entry but index 1 is 0 |
| `ImgUtils.OffsetsStayInImage` | src/main/java/de/mpicbg/scf/mincostsurface/img_utils.java:315 | (T−1)·(dim1/T) + dim1/T ≤ dim1, and every band of dim1/T rows starting at an offset ends inside the image |
| `ImgUtils.ZSurfaceReslice` | src/main/java/de/mpicbg/scf/mincostsurface/img_utils.java:329-359 | the excerpt has shape (dims[0], dims[1], sliceOnTop+sliceBelow+1), and voxel (x, y, z) is the input at (x, y, z − sliceOnTop + trunc(depth(x, y))), with depth and input read through border-clamping views |
| `ImgUtils.TruncateToIntProperties` | src/main/java/de/mpicbg/scf/mincostsurface/img_utils.java:352 | the (int) cast keeps an integral altitude and moves any other value toward zero |
| `ImgUtils.ReslicedValueShifts` | src/main/java/de/mpicbg/scf/mincostsurface/img_utils.java:351-355 | where the shifted slice lies inside the input, the excerpt voxel is that input voxel, with no clamping |
| `ImgUtils.SurfaceOnMiddleSlice` | src/main/java/de/mpicbg/scf/mincostsurface/img_utils.java:352-355 | with integral depth k inside the input, slice `sliceOnTop` of the excerpt is input slice k |
| `ImgUtils.UpsampleGuard` | src/main/java/de/mpicbg/scf/mincostsurface/img_utils.java:132-179 | upsampling returns the input itself exactly when the size has a different number of dimensions; a size of the same rank gives an image of that size for 1-D and 2-D images; for deeper images it throws index-out-of-bounds exactly when every output extent is positive, because the loop at :171-176 stores each coordinate into a two-entry position buffer, and otherwise gives an image of that size |
| `ImgUtils.DimensionOf` | src/main/java/de/mpicbg/scf/mincostsurface/img_utils.java:188 | reading the extent of dimension d succeeds exactly for 0 ≤ d < n and then gives that extent; otherwise index-out-of-bounds |
| `ImgUtils.DimensionsInto` | src/main/java/de/mpicbg/scf/mincostsurface/img_utils.java:190 | writing all n extents into an array of length `len` succeeds exactly when n ≤ `len`, and the array then starts with the extents |
| `ImgUtils.DeepUpsampleThrows` | src/main/java/de/mpicbg/scf/mincostsurface/img_utils.java:165-176 | a 2×2×2 image upsampled to 4×4×4 throws index-out-of-bounds at its first output pixel |
| `ImgUtils.UpsampleByFactorThrows` | src/main/java/de/mpicbg/scf/mincostsurface/img_utils.java:185-197 | the factor overload reads the dimension count as the constant 0, so every image ends in index-out-of-bounds (on dimension 0 for a 0-D image, on writing the extents otherwise) and the size guard is never reached |
| `Bands.BandStartIsOffset` | src/main/java/de/mpicbg/scf/mincostsurface/img_utils.java:315 | the height entry of offset row d is band d's first row (H/T)·d, and its width entry is 0 |
| `Bands.BandHeightBounds` | src/main/java/de/mpicbg/scf/mincostsurface/MinCostZSurfaceMT_Ops.java:117 | 0 ≤ H/T, T·(H/T) ≤ H < T·(H/T) + T |
| `Bands.LastBandTallest` | src/main/java/de/mpicbg/scf/mincostsurface/MinCost2ZSurfaceMT_Ops.java:119-121 | the last band, H − (H/T)·(T−1) rows, is at least as tall as every band |
| `Bands.ChunksContiguous` | src/main/java/de/mpicbg/scf/mincostsurface/MinCost2ZSurfaceMT_Ops.java:119-123 | each band ends where the next begins and the last ends at row H |
| `Bands.ChunkHeightsSum` | src/main/java/de/mpicbg/scf/mincostsurface/MinCost2ZSurfaceMT_Ops.java:119-121 | the heights of the first n bands sum to band n's start, and all T of them to H |
| `Bands.InOwnChunk` | src/main/java/de/mpicbg/scf/mincostsurface/MinCost2ZSurfaceMT_Ops.java:160-179 | every row of [0, H) lies in the band `ChunkOf` names |
| `Bands.OnlyOwnChunk` | src/main/java/de/mpicbg/scf/mincostsurface/MinCost2ZSurfaceMT_Ops.java:160-179 | a row lies in no other band |
| `Bands.ChunkCover` | src/main/java/de/mpicbg/scf/mincostsurface/MinCost2ZSurfaceMT_Ops.java:160-179 | with the remainder-absorbing last band, row y lies in band d if and only if d = `ChunkOf(y)`: the bands are disjoint and cover [0, H) |
| `Bands.BandCover` | src/main/java/de/mpicbg/scf/mincostsurface/MinCostZSurfaceMT_Ops.java:117-119 | with equal bands, row y lies in band d if and only if H/T > 0, y < T·(H/T) and d = y/(H/T): rows from T·(H/T) on lie in none |
| `Bands.OffsetVolumeAt` | src/main/java/de/mpicbg/scf/mincostsurface/MinCost2ZSurfaceMT_Ops.java:174-189 | each voxel of the copied band is the source voxel shifted by the offset |
| `Bands.CopyBand` | src/main/java/de/mpicbg/scf/mincostsurface/MinCost2ZSurfaceMT_Ops.java:174-189 | the cursor copy gives chunk[x, y, z] = input[x, y + offset, z] at every chunk position |
| `Bands.WrittenPrefixOfTile` | src/main/java/de/mpicbg/scf/mincostsurface/MinCost2ZSurfaceMT_Ops.java:241-249 | after p cursor steps of a map as wide as the global map, the p indices from offset·W on hold the map's first p samples, each narrowed to the global map's pixel type, and every other index is unchanged |
| `Bands.WrittenTilePixel` | src/main/java/de/mpicbg/scf/mincostsurface/MinCost2ZSurfaceMT_Ops.java:233-249 | after the write-back, global (x, y) is map (x, y − offset), narrowed to the global map's pixel type, on the band's rows and unchanged elsewhere |
| `Bands.WritesCommute` | src/main/java/de/mpicbg/scf/mincostsurface/MinCost2ZSurfaceMT_Ops.java:233-255 | two maps written to disjoint rows give the same global map in either order |
| `Bands.WriteMapPair` | src/main/java/de/mpicbg/scf/mincostsurface/MinCost2ZSurfaceMT_Ops.java:233-249 | the lockstep loop writes each of the two maps into its global map at the band offset, every sample passing through `setReal` of the global map's pixel type (`narrow`) |
| `Bands.WriteMapSkipping` | src/main/java/de/mpicbg/scf/mincostsurface/MinCostZSurfaceMT_Ops.java:220-232 | every sample is written at its target, narrowed to the global map's pixel type, and a target outside the global map is skipped and the loop goes on |
| `MinCost2ZSurfaceMT.ClampedThreads` | src/main/java/de/mpicbg/scf/mincostsurface/MinCost2ZSurfaceMT_Ops.java:111-113 | the result is 0 exactly when the count or H is 0; otherwise it lies in (0, H], and a count already in (0, H] is kept |
| `MinCost2ZSurfaceMT.Chunk` | src/main/java/de/mpicbg/scf/mincostsurface/MinCost2ZSurfaceMT_Ops.java:174-189 | chunk d has the source's width and depth and `ChunkHeight(d)` rows |
| `MinCost2ZSurfaceMT.Stitched` | src/main/java/de/mpicbg/scf/mincostsurface/MinCost2ZSurfaceMT_Ops.java:163-164 | the global maps have dim0 × dim1 samples |
| `MinCost2ZSurfaceMT.StitchedPrefixPixel` | src/main/java/de/mpicbg/scf/mincostsurface/MinCost2ZSurfaceMT_Ops.java:156-257 | after n chunks, rows they cover hold the owning chunk's map k at (x, y − offset) narrowed to the pixel type, or 0 if that chunk produced none, and every other row holds 0 |
| `MinCost2ZSurfaceMT.ProcessMT` | src/main/java/de/mpicbg/scf/mincostsurface/MinCost2ZSurfaceMT_Ops.java:156-258 | with no threads both maps stay zero; otherwise both global maps are W × H in the input's pixel type, and map k at (x, y) is the owning chunk's map k at (x, y − offset) as that type stores it (`narrow`) |
| `MinCost2ZSurfaceMT.RunChunk` | src/main/java/de/mpicbg/scf/mincostsurface/MinCost2ZSurfaceMT_Ops.java:172-250 | one thread's run takes both global maps from the state after chunks 0..i-1 to the state after chunks 0..i: its band is copied at its offset, and the detector's two maps are written at that offset, each height narrowed to the input's pixel type |
| `MinCost2ZSurfaceMT.StitchedMaps` | src/main/java/de/mpicbg/scf/mincostsurface/MinCost2ZSurfaceMT_Ops.java:255-257 | once every thread has run, both returned maps are W × H planes, and each pixel holds the owning chunk's map value at that pixel, moved up by the chunk's offset and narrowed to the input's pixel type |
| `MinCost2ZSurfaceMT.MinCost2ZSurfaceMTOps.Process2` | src/main/java/de/mpicbg/scf/mincostsurface/MinCost2ZSurfaceMT_Ops.java:88-153 | no output and no change for a non-3-D input; otherwise the thread count is clamped, zero threads divide by zero, and a positive count stitches both maps, every height stored in the input's pixel type (`narrow`), and upsamples each to the input's width and height, which always succeeds for this 2-D size |
| `MinCostZSurfaceMT.ClampedThreads` | src/main/java/de/mpicbg/scf/mincostsurface/MinCostZSurfaceMT_Ops.java:112-114 | a negative count is kept; a non-negative one is lowered to H when larger; 0 exactly when the count is 0, or H is 0 and the count positive |
| `MinCostZSurfaceMT.Part` | src/main/java/de/mpicbg/scf/mincostsurface/MinCostZSurfaceMT_Ops.java:177-187 | every part, the last one included, is H/T rows tall with the source's width and depth |
| `MinCostZSurfaceMT.Stitched` | src/main/java/de/mpicbg/scf/mincostsurface/MinCostZSurfaceMT_Ops.java:166 | the global map has dim0 × dim1 samples |
| `MinCostZSurfaceMT.NoWriteSkipped` | src/main/java/de/mpicbg/scf/mincostsurface/MinCostZSurfaceMT_Ops.java:223-231 | a map of the part's shape never reaches the out-of-bounds handler: every write lands inside the global map |
| `MinCostZSurfaceMT.PartWrittenInside` | src/main/java/de/mpicbg/scf/mincostsurface/MinCostZSurfaceMT_Ops.java:220-232 | writing part d back sets its rows to its map narrowed to the input's pixel type, and leaves them as they were when part d produced no map |
| `MinCostZSurfaceMT.PartWrittenOutside` | src/main/java/de/mpicbg/scf/mincostsurface/MinCostZSurfaceMT_Ops.java:220-232 | writing part d back leaves every row outside part d unchanged |
| `MinCostZSurfaceMT.StitchedPrefixPixel` | src/main/java/de/mpicbg/scf/mincostsurface/MinCostZSurfaceMT_Ops.java:145-239 | after n parts, rows below (H/T)·n hold their part's map narrowed to the input's pixel type (or 0), all others 0 |
| `MinCostZSurfaceMT.StitchedMap` | src/main/java/de/mpicbg/scf/mincostsurface/MinCostZSurfaceMT_Ops.java:145-239 | the finished map holds each part's map, narrowed to the input's pixel type, on its rows, and rows from T·(H/T) to H−1 keep the factory's 0 |
| `MinCostZSurfaceMT.ProcessMT` | src/main/java/de/mpicbg/scf/mincostsurface/MinCostZSurfaceMT_Ops.java:145-239 | a negative count fails allocating the offsets; zero threads leave the zero map; otherwise the result is the W × H stitched map in the input's pixel type, described pixel by pixel when the detector returns maps of the part's shape |
| `MinCostZSurfaceMT.MinCostZSurfaceMTOps.Process` | src/main/java/de/mpicbg/scf/mincostsurface/MinCostZSurfaceMT_Ops.java:88-143 | no output and no change for a non-3-D input; otherwise the count is clamped only when H is smaller, zero threads divide by zero, negative ones fail allocating, and a positive count stitches the map, every height stored in the input's pixel type (`narrow`), and upsamples it to the input's width and height, which always succeeds for this 2-D size |

## Findings

| source | as written | input that shows it | evidently intended | confidence | as-written member | corrected member |
|---|---|---|---|---|---|---|
| src/main/java/de/mpicbg/scf/mincostsurface/MinCostYCurve.java:214-215 | `image_cost.firstElement()` is pixel (0, 0) of the caller's image, so `setZero()` zeroes it. Pixel (0, 1) then gets weight factor·c(0, 1), and the caller's image is modified. | 2×2 costs 5, 1 / 3, 2, `maxDy` 1, factor 1: pixel (0, 1) is stored as (0, 3) instead of (2, 0) | a detached zero value, as `createVariable()` gives in `img_utils.java`. Every weight above row 0 is then factor·(c(x, y) − c(x, y−1)), and a column's weights telescope to factor·(c(x, k) − c(x, 0)). | likely; not executed | `MinCostYCurve.ZeroingFlipsTerminal` (with `CurveGraph.AsWrittenColumnWeights`) | `CurveGraph.ColumnWeightTelescopes` (with `CurveGraph.TerminalWeightByRow`) |

The builder keeps the behaviour as written: it applies the weight
definition `TerminalWeight` to the zeroed image. The corrected property is
`TerminalWeight` on an untouched image.

## Left out

- The max-flow solver (`graphcut.GraphCut`) is foreign code. It is a function parameter from the assembled problem to a flow value and a labelling. Graph-cut optimality, monotone column labels and the smoothness of the decoded height are solver properties. They appear only as the assumption of `PrefixColumnHeight`, never as proved facts.
- The 3-D `MinCostZSurface` builder and its no-crossing constraint are not part of this model. The multi-threaded ops see them only as an abstract per-tile detector.
- The constraint methods commented out in `MinCostYCurve.java` are dead code and are not modelled.
- Floating point: costs, weights and the flow are reals, and the infinite weight is the constant 1e6. Float rounding of the weight differences is not modelled.
- Integer widths: node ids and array sizes are unbounded integers. The Java `(int)` casts of `nNodes`, `nEdges` and node ids would wrap for very large images, and the model does not capture that.
- Downsampling, the interpolating paths of `upsample`, `downsample2`, `decimate` and `ZSurface_reslice2`/`ZSurface_reslice3` are left out (Gaussian blur, interpolation, float ratios). Downsampling is a function parameter. An upsampled image of the right size is an opaque `Resampled(size)`. A same-rank size with a zero extent is taken to give an empty image. What the image factory does with a negative extent, or with an empty size for a 0-D image, is outside the shown sources; the model takes both to give an image of that size.
- The rescaling of the upsampled height maps by 1/`downsample_factor_z`, the timing printouts and the error messages are left out (float arithmetic and console output).
- Pixel types: the global height maps are created in the input's pixel type, and every stored height goes through that type's `setReal`. The conversion belongs to the image library, outside the shown sources. It is the parameter `narrow` of the two ops, and every contract states the stored height as `narrow` of the detector's height for any such conversion. For a float input it is the identity up to float rounding. For an 8-bit or 16-bit input it rounds, and can wrap heights outside the type's range. No particular type's conversion is modelled.
- Threads: the bands are processed one after the other. `WritesCommute` shows that band order does not change the global map.
- `ImgUtils.UpsampleByFactor`: the image library's `dimension(d)` and `dimensions(long[])` are outside the shown sources. The model takes them to throw index-out-of-bounds for a missing dimension or a too-short array, as array-backed images do. The overload then never returns an image, and the interpolation it would reach is not modelled.
- `MinCostYCurve.CreateSurfaceGraph`: the image library's `firstElement()` is taken to return a view of pixel 0 of the image's own storage, so `setZero()` writes into the caller's image. That write appears as the returned image, not as aliasing. Setting pixel 0 of an image with no pixel is taken to throw index-out-of-bounds.
- `MinCostYCurve.MinCostYCurve.GetAltitudeMap`, `MinCostYCurve.MinCostYCurve.GetSurfaceMask`, `MinCostYCurve.MinCostYCurve.DecodeSurface`: the solver's labelling is total in the model. After a surface is built following `Process`, both decoders return labels read at node ids beyond the solved problem's node count. The Java solver was never given those nodes. What the foreign solver does when asked for them is not part of this model.
- `MinCost2ZSurfaceMT.ProcessMT`, `MinCost2ZSurfaceMT.MinCost2ZSurfaceMTOps.Process2`: both require the detector to return two maps of the chunk's shape. The Java write-back has no out-of-bounds handler. A map of another shape makes its thread throw part-way through the write-back, leaving some pixels written. The model does not capture those partial writes.
- `ImgUtils.ZSurfaceReslice`: requires a non-empty depth map and input volume whenever the excerpt is non-empty, and a non-negative output height. Border extension of an empty image and the factory's rejection of a negative size are library behaviour.
- `MinCostZSurfaceMT.ProcessMT`: the pixel-by-pixel statement holds only for a detector that returns maps of the part's shape. For any other detector the result is described only by the `Stitched` fold, which includes the skipped writes.
- `getNSurfaces` and `getMaxFlow` are plain field reads (`nSurface`, `maxFlow`). The UI and parameter wiring of the ops, and their `main` launchers, are left out.
