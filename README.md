# Greedy block-adaptive image compressor: a verified model

This project models the compression pipeline of `GreedyImageCompressor.py`,
lines 6-86, in Dafny. The pipeline turns one 8-bit RGB raster into another:

- It walks block origins on a grid of stride `initial_block_size`, in
  row-major order.
- For each origin, it scores how similar the block's neighbouring pixels are.
  A similar block is enlarged: its size is doubled, capped at 32.
- It cuts the block again at the chosen size.
- It blends every pixel of that block toward the block's average colour,
  weighted by `quality`.
- It writes the result into a zero-initialised output raster.

Modules, one file each:

- `pixels.dfy` (`Pixels`): 8-bit channels and pixels, and `color_difference`.
  On the `uint8` pixels the program hands it, each channel difference wraps
  modulo 256, so `np.abs` changes nothing. The distance is therefore the sum
  of `(a - b) mod 256`, not of `|a - b|`, and it is not symmetric.
- `blocks.dfy` (`Blocks`): rasters as values (`Image`), `get_block` as a
  clipped cut, and `set_block` as a method that writes into an `array2`.
  `Paste` is the value-level view of that write. `Contents` reads an array
  back as a raster.
- `similarity.dfy` (`Similarity`): the neighbour-difference sum and the size
  decision. `AdjustBlockSize` keeps the source's nested loops and is proved
  against the recursive specification `DifferenceSum`.
- `quantizer.dfy` (`Quantizer`): the exact per-channel mean, the blend, its
  truncation, and `CompressBlockWithQuality`. That method fills a fresh array
  pixel by pixel, as the source does, and is proved equal to the function
  `Quantize`.
- `compressor.dfy` (`Compressor`): the whole pass. `CompressImage` is proved
  to leave `FinalPixel` at every pixel: the value that the block of the
  pixel's own grid cell puts there.
- `arith.dfy` (`Arith`): small arithmetic facts, each proved on its own.

Properties proved about the pass:

- Blocks are written in scan order. An enlarged block may spill into later
  grid cells, but those cells' own blocks overwrite the spill.
- No block reaches back into an earlier cell.
- With a nominal size of 1 to 32, every output pixel is the truncated blend of
  the input pixel toward the mean of its cell's (possibly enlarged) block.
- With a nominal size of 1 to 32, a single-colour image comes back
  unchanged, at any quality, in exact real arithmetic; in doubles this holds
  at qualities 0, 0.5 and 1 (see "## Left out").
- With a nominal size of 1 to 32, every image comes back unchanged at
  quality 1.
- At quality 0 no block grows, and every pixel becomes the truncated mean of
  its own cell.
- With a nominal size above 32, a "grown" block is capped at 32 and so is
  smaller than its cell. The rest of the cell keeps the zeros the output
  starts with.

## Model

| member | source | states |
|---|---|---|
| Pixels.WrapSub | GreedyImageCompressor.py:81 | the `uint8` difference is `a - b` when `a >= b` and `256 - (b - a)` otherwise |
| Pixels.ColorDifference | GreedyImageCompressor.py:80-81 | the distance lies in [0, 765] and is 0 exactly when the two pixels are equal |
| Pixels.ColorDifferenceWhenDominant | GreedyImageCompressor.py:81 | when every channel of the first pixel is at least that of the second, the distance is the sum of absolute differences |
| Pixels.ColorDifferenceBothWays | GreedyImageCompressor.py:81 | the two directions of the distance add up to 256 per differing channel, so the distance is not symmetric |
| Blocks.GetBlock | GreedyImageCompressor.py:34-39 | the cut holds exactly rows `[sy, min(sy + size, H))` and columns `[sx, min(sx + size, W))` of the raster, and is empty past the edge |
| Blocks.GetBlockNonEmpty | GreedyImageCompressor.py:34-39 | a cut at an origin inside the raster with size at least 1 has a pixel, so its pixel count is positive |
| Blocks.Paste | GreedyImageCompressor.py:86 | the slice assignment keeps the raster's shape, puts the block's pixels in the rectangle at the origin, and keeps every other pixel |
| Blocks.PasteGetBlock | GreedyImageCompressor.py:86 | pasting back the cut taken at an origin leaves the raster unchanged |
| Blocks.GetBlockPaste | GreedyImageCompressor.py:38 | cutting at the origin where a block of the cut's shape was pasted gives that block back |
| Blocks.SetBlock | GreedyImageCompressor.py:84-86 | the new output is the old output with the block pasted at the origin: the rectangle is overwritten, nothing else changes, and the nominal size plays no part |
| Similarity.PairDifference | GreedyImageCompressor.py:50-55 | one position adds at most 1530, and adds 0 exactly when the pixel equals its right neighbour and the one below it |
| Similarity.RowDifference | GreedyImageCompressor.py:49-55 | the `sum_diff` contribution of the first `n` positions of one row (specification function, no contract of its own) |
| Similarity.DifferenceSum | GreedyImageCompressor.py:48-55 | the `sum_diff` after the first `m` rows (specification function, no contract of its own) |
| Similarity.Score | GreedyImageCompressor.py:57 | `avg_diff`: the sum divided by the pixel count, as an exact real (specification function, no contract of its own) |
| Similarity.AdaptiveSize | GreedyImageCompressor.py:57-62 | the size decision: grown when the score is strictly below `50 * quality`, kept otherwise (specification function; its properties are `AdaptiveSizeChoices` and `ThresholdIsStrict`) |
| Similarity.AdjustBlockSize | GreedyImageCompressor.py:42-62 | the nested loops accumulate the neighbour-difference sum, and the returned size is the one `AdaptiveSize` chooses from it |
| Similarity.AdaptiveSizeChoices | GreedyImageCompressor.py:60-62 | the size is either the nominal size or `min(2 * size, 32)`; up to 32 it never shrinks; above 32 it is capped at 32, below the nominal size |
| Similarity.ThresholdIsStrict | GreedyImageCompressor.py:60 | a score equal to `50 * quality` keeps the nominal size |
| Similarity.RowDifferenceBound | GreedyImageCompressor.py:49-55 | one row of `n` positions adds at most `1530 * n` |
| Similarity.DifferenceSumBound | GreedyImageCompressor.py:48-55 | `m` rows add at most `1530 * (w - 1)` each |
| Similarity.BlockDifferenceBound | GreedyImageCompressor.py:48-55 | the sum is at most 765 times the `2 * (h - 1) * (w - 1)` neighbour pairs visited |
| Similarity.RowDifferenceZero | GreedyImageCompressor.py:49-55 | a row adds 0 exactly when every visited pixel in it equals both its neighbours |
| Similarity.DifferenceSumZero | GreedyImageCompressor.py:48-55 | the sum over the first `m` rows is 0 exactly when every visited pixel there equals both its neighbours |
| Similarity.ScoreZeroIffNeighboursEqual | GreedyImageCompressor.py:48-57 | the score is never negative, and is 0 exactly when every visited pixel equals both its neighbours |
| Similarity.FlatBlockGrowsIffQualityPositive | GreedyImageCompressor.py:48-61 | a block of one row, one column or one colour scores 0, so it grows exactly when the quality is positive |
| Quantizer.RowSum | GreedyImageCompressor.py:70 | a channel sum along a row lies between 0 and 255 times the row length |
| Quantizer.ChannelSum | GreedyImageCompressor.py:70 | a channel sum over a block lies between 0 and 255 times its pixel count |
| Quantizer.Mean | GreedyImageCompressor.py:70 | the per-channel average of a non-empty block lies in [0, 255] |
| Quantizer.MeanColor | GreedyImageCompressor.py:70 | all three averages lie in [0, 255] |
| Quantizer.Mix | GreedyImageCompressor.py:76 | the blend lies between the mean and the pixel value, is the mean at quality 0 and the pixel value at quality 1 |
| Quantizer.MixIsWeightedBlend | GreedyImageCompressor.py:76 | the blend equals `(1 - quality) * mean + quality * v` |
| Quantizer.Blend | GreedyImageCompressor.py:76 | the truncated blend stays in [0, 255], so the `uint8` store never wraps; it is the floored mean at quality 0, the pixel at quality 1 or (in exact reals) when it equals the mean, and otherwise lies between them |
| Quantizer.BlendPixel | GreedyImageCompressor.py:76 | the truncated blend of all three channels of one pixel toward a colour (specification function; its properties are those of `Blend`) |
| Quantizer.FlooredMean | GreedyImageCompressor.py:70 | the average colour truncated per channel, which every pixel becomes at quality 0 (specification function) |
| Quantizer.Quantize | GreedyImageCompressor.py:73-77 | the quantized block has the block's shape |
| Quantizer.QuantizeAt | GreedyImageCompressor.py:76 | each quantized pixel is the blend of the input pixel toward the block's average colour |
| Quantizer.CompressBlockWithQuality | GreedyImageCompressor.py:65-77 | the pixel-by-pixel fill of a fresh array produces exactly `Quantize` of the block |
| Quantizer.FullQualityKeepsBlock | GreedyImageCompressor.py:76 | at quality 1 the block comes back unchanged |
| Quantizer.ZeroQualityFlattens | GreedyImageCompressor.py:76 | at quality 0 every pixel becomes the floored average colour |
| Quantizer.RowSumFilled | GreedyImageCompressor.py:70 | a row of one colour sums to that channel value times its length |
| Quantizer.ChannelSumFilled | GreedyImageCompressor.py:70 | a block of one colour sums to that channel value times its pixel count |
| Quantizer.MeanOfFilledBlock | GreedyImageCompressor.py:70 | the average colour of a block of one colour is that colour |
| Quantizer.FilledBlockUnchanged | GreedyImageCompressor.py:65-77 | a block of one colour comes back unchanged at any quality, in exact real arithmetic |
| Compressor.CellStart | GreedyImageCompressor.py:13-14 | the origin of the grid cell holding a row (or column) is on the grid, at or before it, and less than one stride before it |
| Compressor.CellStartInCell | GreedyImageCompressor.py:13-14 | every row (or column) of the cell at a grid origin has that origin as its cell start |
| Compressor.CellSize | GreedyImageCompressor.py:16-19 | the size chosen for a cell inside the raster is at least 1 |
| Compressor.CellBlock | GreedyImageCompressor.py:22 | the re-cut block of a cell inside the raster is non-empty |
| Compressor.CellPixel | GreedyImageCompressor.py:22-28 | what the block written for one cell puts at a pixel: the quantized pixel where the block reaches it, the initial zero otherwise (specification function) |
| Compressor.FinalPixel | GreedyImageCompressor.py:13-28 | the value the pass leaves at a pixel: what its own grid cell's block puts there (specification function; `CompressImage` and the whole-image lemmas are about it) |
| Compressor.CellWriteReached | GreedyImageCompressor.py:22-28 | where the written block of a pixel's own cell reaches the pixel, the pixel gets its final value |
| Compressor.CellWriteMissed | GreedyImageCompressor.py:19-28 | a pixel its own cell's block misses exists only for a nominal size above 32; it keeps the initial zero, which is then its final value |
| Compressor.PixelAfterCell | GreedyImageCompressor.py:13-28 | writing one cell's block finalises the pixels of that cell, keeps finished pixels, and (above 32) keeps the zeros still to be processed |
| Compressor.CellWritten | GreedyImageCompressor.py:13-28 | writing one cell's block moves the finished region on by one origin |
| Compressor.BandFinished | GreedyImageCompressor.py:14 | once the inner loop passes the right edge, the whole band of rows is finished |
| Compressor.CompressCell | GreedyImageCompressor.py:16-28 | one iteration of the body leaves the old output with exactly the cell's quantized block pasted at its origin, which moves the finished region on by one origin |
| Compressor.CompressBand | GreedyImageCompressor.py:14-28 | the inner loop finishes one band of `s` rows and changes no pixel outside the rows its blocks can reach |
| Compressor.CellWithinReach | GreedyImageCompressor.py:19-22 | the re-cut block of a cell is no taller than the larger of the nominal and the grown size |
| Compressor.PasteKeepsOutsideBand | GreedyImageCompressor.py:28 | writing a block no taller than the band's reach keeps every pixel outside that reach |
| Compressor.CompressImage | GreedyImageCompressor.py:6-31 | the output has the input's dimensions and every pixel holds `FinalPixel`, the value its own cell's block gives it; an empty input gives an empty output |
| Compressor.CellCoversPixel | GreedyImageCompressor.py:13-22 | for a nominal size of 1 to 32, a cell's block covers every pixel of the cell, at the matching position |
| Compressor.EveryPixelBlended | GreedyImageCompressor.py:13-28 | for a nominal size of 1 to 32, every output pixel is the truncated blend of the input pixel toward the mean of its cell's possibly enlarged block |
| Compressor.FilledImageUnchanged | GreedyImageCompressor.py:6-31 | for a nominal size of 1 to 32, an image of one colour comes back unchanged at any quality, in exact real arithmetic |
| Compressor.FullQualityImageUnchanged | GreedyImageCompressor.py:6-31 | for a nominal size of 1 to 32, quality 1 returns the input image |
| Compressor.ZeroQualityFlattensCells | GreedyImageCompressor.py:16-28 | at quality 0 no cell grows, and every pixel becomes the floored mean of its own grid cell |
| Compressor.OversizedCellLeavesZeros | GreedyImageCompressor.py:19-28 | for a nominal size above 32, in a single-colour image at positive quality, the pixels 32 or more rows or columns past their cell's origin stay zero |

## Left out

- The `UI` class, the Tk window, file dialogs, message boxes and the `mainloop` start-up (lines 89-171) are user interface and I/O.
- PIL decoding, encoding and `ImageTk` conversion are calls into a foreign library.
- The LANCZOS preview resizing is done inside PIL.
- The mean and the blend (lines 70 and 76), the score `sum_diff / pixel_count` (line 57) and the threshold `50 * quality` (line 60) use exact real arithmetic, not IEEE-754 doubles. A double rounding error that lands just below an integer before truncation is not modelled; where the exact blend is itself an integer, as for a pixel equal to the mean, such an error moves the result down by one (see the lines below). At the strict threshold, doubles and exact reals can decide differently: with quality 0.1 and a score of exactly 5, the double `50 * 0.1` is 5.0 and the block keeps its size, while the exact value of the double 0.1 gives a threshold just above 5 and the block grows.
- Quantizer.Blend: the clause "the pixel when it equals the mean" is about exact reals. In doubles, a pixel of value 3 blended toward a mean of 3.0 at quality 0.3 gives `0.7 * 3.0 + 0.3 * 3` = 2.9999999999999996, which truncates to 2. The clause holds exactly in doubles at qualities 0, 0.5 and 1, where each product and the sum are exact.
- Quantizer.FilledBlockUnchanged: a statement about exact reals. In doubles a block of one colour (3, 3, 3) at quality 0.3 comes back as (2, 2, 2), for the reason given under `Quantizer.Blend`; the mean of a one-colour block is exact in doubles, so the claim holds in doubles at qualities 0, 0.5 (the value the program's caller passes) and 1.
- Compressor.FilledImageUnchanged: a statement about exact reals, like `Quantizer.FilledBlockUnchanged`: a (3, 3, 3) image at quality 0.3 comes back as (2, 2, 2) in doubles. In doubles the claim holds at qualities 0, 0.5 and 1.
- Similarity.ThresholdIsStrict: a statement about exact reals; under double rounding the threshold itself may differ from `50 * quality`, as the line above shows.
- Quantizer.Mix: written as the mean moved toward the pixel by the fraction `quality`. `MixIsWeightedBlend` proves it equal to the source's `(1 - quality) * mean + quality * v`.
- numpy dtype generality: pixels are `uint8` triples, the only type the program's caller supplies.
- Compressor.CompressImage: requires `initial_block_size >= 1`. The error a step of 0 raises in `range`, and the empty loop a negative step gives, are not modelled.
- Compressor.CompressImage: requires `quality` in [0, 1]. Outside that range the blend can leave [0, 255], and the wrap of the `uint8` store is not modelled.
- Similarity.AdjustBlockSize: requires a non-empty block. On an empty block the source's `0 / 0` raises. `compress_image` never passes one, by `Blocks.GetBlockNonEmpty`.
- Quantizer.Quantize: an empty block has a NaN average in numpy, which is never read. The model uses a placeholder colour there.
- Compressor.CompressImage: the body of the outer loop is a separate method, `CompressBand`, and the body of the inner loop is `CompressCell`. They make the same calls in the same order on the same array.
- Similarity.BlockDifferenceBound: the number of neighbour pairs visited appears only as the factor in this bound (`PairCount`). It is not proved as a count of loop iterations.
