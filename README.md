# Tiled segmentation: planning, filtering and mask assembly

This project models `python/seg.py`, the integer side of a tiled
watershed post-processing step. The step works on a probability map of a
large microscopy image. It has three parts, and the model proves properties
of each and of the three together:

- **Tile planner** (`iterate_bboxes`). Tile origins are walked row by row:
  `y` in the outer loop, `x` in the inner loop, both stepping by
  `int(tile_size*(1-overlap))`. Each box `(x, y, min(x+tile, W), min(y+tile, H))`
  is clipped to the image.
- **Tile filter**. For each planned box, in plan order, the probability
  block `pred[0, x0:x1, y0:y1]` is copied. The box is dropped when the block
  sums to less than `0.001`; otherwise it becomes a job.
- **Mask assembler**. The mask starts as a zero `uint16` buffer shaped like
  the prediction. Every job is segmented, and the results are written into
  `mask[x0:x1, y0:y1]` in submission order, each cast to `uint16`.

Modules, one per component:

- `tiling.dfy` (`Tiling`): the planner. It is pure. `RowFrom`/`RowsFrom`
  follow the two nested `range` loops. `BoxAt(r, c)` is a closed-form
  reference, and `PlanIndex`/`PlanAt` connect the two.
- `tile_filter.dfy` (`TileFilter`): the filter loop as the method
  `PrepareTiles`, proved equal to the function `Prepared`. `KeptIndices` is
  a reference definition of the kept positions of the plan.
- `mask_assembly.dfy` (`MaskAssembly`): the submission loop (`Submit`), the
  block write (`WriteTile`, nested loops over an `array2<int>`), the
  assembly loop (`Assemble`), and `SegmentTiles`, the body of the parameter
  loop on the parallel path. `Assembled` states the value of one pixel after
  a sequence of writes.
- `pipeline.dfy` (`Pipeline`): lemmas about the mask that planning,
  filtering and assembly produce together.

How the model represents the program:

- The prediction is an immutable `seq<seq<real>>`, indexed `[x][y]`. The
  program only reads it. Probabilities are exact reals, not IEEE floats.
- The image is `W x H` with `W = img_np.shape[1]` and `H = img_np.shape[2]`.
  The prediction is assumed to be `W x H` (`IsGrid`), so the mask built by
  `zeros_like(pred[0])` is `W x H` too.
- `mutex_ws` is a function parameter `segment`, with its `beta` and
  `post_minsize` arguments fixed. The only fact used about it is
  `ShapePreserving`: it returns labels shaped like its input.
- The worker pool is a sequential map in submission order. `.get()` is
  applied to results in that order.
- `astype(np.uint16)` is `U16(v) = v % 65536`, which is numpy's modular wrap.
- Python's `int()` truncates toward zero (`Trunc`). `range` with a zero step
  raises `ValueError` (`Failed(ZeroStride)`). A negative step gives an empty
  range, so the plan is empty.

Edge cases of the code that the model keeps:

- A zero stride makes `range` raise `ValueError` (`IterateBoxes` returns
  `Failed(ZeroStride)`). This happens whenever `tile_size*(1-overlap)`
  truncates to 0, including overlaps slightly above 1. A negative stride
  (overlap at least `1 + 1/tile_size`) makes both ranges empty, so no boxes
  are planned and no error is raised.
- A tile is dropped only when its sum is below `0.001`, so a sum of exactly
  `0.001` is kept (`Keep`, `KeptIndicesExact`).
- An empty box's block sums to 0 and is dropped. The planner never yields
  one when `tile_size >= 1` (`PlanBoxShape`).
- `res["res"].get()` re-raises a worker's exception and ends the run
  (python/seg.py:239). No tile failure is isolated.

## Model

| member | source | states |
|---|---|---|
| `Tiling.Trunc` | python/seg.py:125 | `int()` of a number truncates toward zero: the result lies within 1 below a non-negative value, within 1 above a negative one |
| `Tiling.PlanLength` | python/seg.py:124-129 | the plan has `Steps(H) * Steps(W)` boxes, which is `ceil(H/stride) * ceil(W/stride)` |
| `Tiling.StepsIsCeil` | python/seg.py:125-126 | the number of values `range(0, n, stride)` yields is the ceiling of `n/stride`: `(k-1)*stride < n <= k*stride` |
| `Tiling.PlanAt` | python/seg.py:124-129 | the box of tile row `r` and column `c` stands at position `r*nx + c` and equals the closed form `BoxAt(r, c)` |
| `Tiling.PlanIndex` | python/seg.py:124-129 | every position of the plan is some `r*nx + c` with `r < ny`, `c < nx`, and holds `BoxAt(r, c)` |
| `Tiling.PlanBoxShape` | python/seg.py:125-128 | every box satisfies `0 <= x0 < x1 <= W` and `0 <= y0 < y1 <= H`, each side is at most `tile_size`, and both origin coordinates are multiples of the stride |
| `Tiling.PlanInImage` | python/seg.py:128 | no box extends past the image |
| `Tiling.PlanRowMajor` | python/seg.py:125-126 | for two positions `a < b`, box `a` is on an earlier row, or on the same row with a smaller `x0` |
| `Tiling.PlanCovers` | python/seg.py:124-129 | when `stride <= tile_size`, every pixel `(i, j)` of the image lies in some box |
| `Tiling.PlanDisjoint` | python/seg.py:124-129 | when `stride == tile_size`, no two boxes share a pixel |
| `Tiling.NoOverlapPlan` | python/seg.py:125 | with `overlap = 0.0` and `tile_size >= 1` the stride is `tile_size` |
| `Tiling.OverlapStride` | python/seg.py:125 | for an overlap in `[0, 1)`, the planner fails exactly when `tile_size*(1-overlap) < 1`; otherwise the stride is between 1 and `tile_size` |
| `Tiling.FourTiles` | python/seg.py:124-129 | a 4096 x 4096 image with 2048-pixel tiles and overlap 0 gives exactly the four boxes `(0,0,2048,2048)`, `(2048,0,4096,2048)`, `(0,2048,2048,4096)`, `(2048,2048,4096,4096)`, in that order |
| `TileFilter.Block` | python/seg.py:218 | the copied block has the box's shape, and its entry `[i][j]` is the prediction at `(x0+i, y0+j)` |
| `TileFilter.KeptIndicesIncrease` | python/seg.py:216-223 | the kept positions are positions of the plan, in strictly increasing order |
| `TileFilter.KeptIndicesExact` | python/seg.py:219-222 | a plan position is kept if and only if its block's sum is at least `0.001` |
| `TileFilter.PreparedIsSubsequence` | python/seg.py:216-223 | the `m`-th job is the box at the `m`-th kept position together with that box's block, so the jobs are the kept boxes as a subsequence of the plan, in the same order |
| `TileFilter.KeptPosition` | python/seg.py:219-222 | each box that passes the filter appears among the kept positions |
| `TileFilter.PrepareTiles` | python/seg.py:215-223 | the filter loop's job list equals `Prepared` |
| `TileFilter.BackgroundDropped` | python/seg.py:219-221 | a box whose probabilities are all 0 is dropped |
| `TileFilter.SignalKept` | python/seg.py:219-222 | with non-negative probabilities, a box holding one probability of at least `0.001` is kept |
| `MaskAssembly.U16` | python/seg.py:239 | the `uint16` cast lands in `[0, 65536)`, leaves values already in range unchanged, and differs from its input by a multiple of 65536 |
| `MaskAssembly.Assembled` | python/seg.py:237-239 | a pixel after a sequence of writes stays in `[0, 65536)` when it started there, and it is either its initial value or the value some covering tile wrote |
| `MaskAssembly.UncoveredUnchanged` | python/seg.py:237-239 | a pixel no written box covers keeps its initial value |
| `MaskAssembly.LastWriteWins` | python/seg.py:237-239 | a covered pixel holds the value of the last tile in submission order that covers it |
| `MaskAssembly.CoveredTakesTileValue` | python/seg.py:237-239 | a pixel that some tile covers holds the value of a covering tile, never its initial value |
| `MaskAssembly.DisjointTileDecides` | python/seg.py:237-239 | with pairwise disjoint boxes, the one tile covering a pixel decides it, wherever that tile stands in the order |
| `MaskAssembly.DisjointOrderIrrelevant` | python/seg.py:237-239 | with pairwise disjoint boxes, two result lists holding the same tiles in any order assemble the same mask |
| `MaskAssembly.WriteTile` | python/seg.py:239 | one block write sets each pixel of the box to the tile's `uint16` label and changes nothing outside the box |
| `MaskAssembly.Assemble` | python/seg.py:237-239 | after the assembly loop, each pixel equals `Assembled` of the results over its previous value |
| `MaskAssembly.Submit` | python/seg.py:232-235 | the submission loop keeps submission order: the `k`-th result belongs to the `k`-th job |
| `MaskAssembly.SubmittedFit` | python/seg.py:232-239 | every result has labels shaped like its box and a box inside the image, so every block write is defined |
| `MaskAssembly.SegmentTiles` | python/seg.py:207-239 | the mask is new, `W x H`, and each pixel equals `MaskValue`: zero-initialised and then overwritten by the kept tiles' labels in submission order |
| `Pipeline.ResultAt` | python/seg.py:232-235 | the `m`-th result is the segmentation of the box at the `m`-th kept plan position |
| `Pipeline.KeptLastWins` | python/seg.py:216-239 | a pixel inside a kept box, with no later kept box covering it, holds that box's `uint16` label |
| `Pipeline.DroppedStaysZero` | python/seg.py:207-239 | a pixel that no kept box covers is 0 in the assembled mask |
| `Pipeline.NoOverlapMask` | python/seg.py:124-139 | with overlap 0, every image pixel lies in exactly one planned box; it holds that box's label when the box was kept and 0 when the box was dropped |
| `Pipeline.UniformLabels` | python/seg.py:197-239 | when every planned tile is kept and the segmentation labels every pixel `v`, the mask is `v` on every pixel of the image, for any stride up to the tile size |
| `Pipeline.FourTilesOfFive` | python/seg.py:124-139 | the 4096 x 4096 image with 2048-pixel tiles, overlap 0, every tile kept and labelled 5, gives four tiles and a mask that is 5 everywhere |

## Left out

- Command-line parsing and path checks (python/seg.py:97-122): argument plumbing.
- All file reading and writing: image and TIFF reads, pyramidal OME-TIFF writes, directory creation (python/seg.py:145-146, 178-186, 256-262). The commented-out pyramidal writer at the top of the file is left out too. These are I/O and foreign libraries.
- UNet prediction, percentiles and intensity rescaling (python/seg.py:156-174): floating-point numerics and model inference.
- `mutex_ws` itself (python/seg.py:234, 244): an external library. It is the parameter `segment`, of which only `ShapePreserving` is assumed.
- The parameter sweep (python/seg.py:188-203). `ParameterGrid` and the float grid built with `np.arange`/`round` are a library call over floats. One iteration of the parameter loop is `SegmentTiles`, with `beta` and `post_minsize` fixed inside `segment`.
- The process pool, its callbacks and the progress bars (python/seg.py:209-242): concurrency and UI. The pool is a sequential map in submission order; completion order does not affect the mask, because writes happen in submission order.
- Error isolation for a failing tile: the code has none, because `.get()` re-raises the worker's exception (python/seg.py:239). A failing `mutex_ws` call is not modelled.
- The non-parallel path (python/seg.py:243-244): it is a single external call on the whole prediction, and `PARALLEL` is fixed to true.
- Outline and overlay rendering (python/seg.py:248-253): plotting library calls.
- Tiling.Stride: takes the overlap as an exact real, so it does not model IEEE rounding of `tile_size*(1-overlap)` before truncation.
- TileFilter.GridSum: sums in exact real arithmetic, so it does not model numpy's floating-point pairwise summation, which can differ near the `0.001` threshold.
- MaskAssembly.SegmentTiles: requires the prediction to match the image extent (`IsGrid(pred, W, H)`). The code does not check this; with a smaller prediction, numpy would clip the slices.
