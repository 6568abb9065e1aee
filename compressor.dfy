/** The whole compression pass: block origins on a fixed grid in row-major
    order, each block sized adaptively, quantized and written into a
    zero-initialised output raster. */
module Compressor {
  import opened Pixels
  import opened Blocks
  import opened Similarity
  import opened Quantizer

  /** Origins of `range(0, n, s)`: 0, `s`, `2 * s`, ... */
  predicate OnGrid(o: nat, s: nat)
    requires s > 0
  {
    o == 0 || (o >= s && OnGrid(o - s, s))
  }

  /** First row (or column) of the grid cell of stride `s` that holds `p`:
      `p` rounded down to a multiple of `s`. */
  function CellStart(p: nat, s: nat): (o: nat)
    requires s > 0
    ensures o <= p < o + s
    ensures OnGrid(o, s)
  {
    if p < s then 0 else CellStart(p - s, s) + s
  }

  /** A row (or column) `p` of the cell whose first row is the origin `o`
      belongs to that cell. */
  lemma {:induction false} CellStartInCell(p: nat, o: nat, s: nat)
    requires s > 0 && OnGrid(o, s) && o <= p < o + s
    ensures CellStart(p, s) == o
  {
    if o > 0 {
      CellStartInCell(p - s, o - s, s);
    }
  }

  /** Edge length the sizer chooses for the grid cell with origin (`oy`, `ox`). */
  function CellSize(img: Image, s: nat, quality: real, oy: nat, ox: nat): (size: nat)
    requires img.Valid() && s > 0 && oy < img.height && ox < img.width
    ensures size >= 1
  {
    AdaptiveSize(GetBlock(img, ox, oy, s), s, quality)
  }

  /** The block the pass quantizes for the grid cell with origin
      (`oy`, `ox`): taken again at the size the sizer chose. */
  function CellBlock(img: Image, s: nat, quality: real, oy: nat, ox: nat): (b: Image)
    requires img.Valid() && s > 0 && oy < img.height && ox < img.width
    ensures b.Valid() && b.height >= 1 && b.width >= 1
  {
    GetBlockNonEmpty(img, ox, oy, CellSize(img, s, quality, oy, ox));
    GetBlock(img, ox, oy, CellSize(img, s, quality, oy, ox))
  }

  /** What the block written for the cell with origin (`oy`, `ox`) puts at
      (`py`, `px`): the matching pixel of the quantized block where the
      block reaches it, and the initial zero otherwise. */
  function CellPixel(img: Image, s: nat, quality: real, oy: nat, ox: nat, py: nat, px: nat): Pixel
    requires img.Valid() && s > 0 && 0.0 <= quality <= 1.0
    requires oy <= py < img.height && ox <= px < img.width
  {
    var cell := CellBlock(img, s, quality, oy, ox);
    if py - oy < cell.height && px - ox < cell.width then
      Quantize(cell, quality).rows[py - oy][px - ox]
    else
      BLACK
  }

  /** The value the pass leaves at (`py`, `px`): what the block of the
      pixel's own grid cell puts there. */
  function FinalPixel(img: Image, s: nat, quality: real, py: nat, px: nat): Pixel
    requires img.Valid() && s > 0 && 0.0 <= quality <= 1.0
    requires py < img.height && px < img.width
  {
    CellPixel(img, s, quality, CellStart(py, s), CellStart(px, s), py, px)
  }

  /** Pixel (`py`, `px`) has been given its final value once the origins
      up to, but not including, (`y`, `x`) have been processed in row-major
      order on a grid of stride `s`. */
  predicate Done(py: nat, px: nat, y: nat, x: nat, s: nat) {
    py < y || (py < y + s && px < x)
  }

  /** `raster` holds the final value of every pixel already processed when
      the next origin is (`y`, `x`), and, for a nominal size above 32,
      still holds the initial zero everywhere else. */
  ghost predicate Filled(raster: Image, img: Image, s: nat, quality: real, y: nat, x: nat)
    requires img.Valid() && s > 0 && 0.0 <= quality <= 1.0
    requires raster.Valid() && raster.height == img.height && raster.width == img.width
  {
    forall py, px :: 0 <= py < img.height && 0 <= px < img.width ==>
      (Done(py, px, y, x, s) ==> raster.rows[py][px] == FinalPixel(img, s, quality, py, px)) &&
      (s > MAX_BLOCK_SIZE && !Done(py, px, y, x, s) ==> raster.rows[py][px] == BLACK)
  }

  /** Where the quantized block of a pixel's own cell reaches the pixel,
      pasting that block leaves the pixel's final value there. */
  lemma CellWriteReached(before: Image, img: Image, s: nat, quality: real,
                         y: nat, x: nat, py: nat, px: nat)
    requires img.Valid() && s > 0 && 0.0 <= quality <= 1.0
    requires before.Valid() && before.height == img.height && before.width == img.width
    requires py < img.height && px < img.width
    requires CellStart(py, s) == y && CellStart(px, s) == x
    requires var cell := CellBlock(img, s, quality, y, x);
             py - y < cell.height && px - x < cell.width
    ensures var compressed := Quantize(CellBlock(img, s, quality, y, x), quality);
            y + compressed.height <= img.height && x + compressed.width <= img.width &&
            Paste(before, compressed, x, y).rows[py][px] == FinalPixel(img, s, quality, py, px)
  {
    var compressed := Quantize(CellBlock(img, s, quality, y, x), quality);
    assert Paste(before, compressed, x, y).rows[py][px] == compressed.rows[py - y][px - x];
  }

  /** Where it does not reach the pixel, which happens only for a nominal
      size above 32, the pixel keeps the zero it was initialised to. */
  lemma CellWriteMissed(before: Image, img: Image, s: nat, quality: real,
                        y: nat, x: nat, py: nat, px: nat)
    requires img.Valid() && s > 0 && 0.0 <= quality <= 1.0
    requires before.Valid() && before.height == img.height && before.width == img.width
    requires py < img.height && px < img.width
    requires CellStart(py, s) == y && CellStart(px, s) == x
    requires var cell := CellBlock(img, s, quality, y, x);
             !(py - y < cell.height && px - x < cell.width)
    ensures s > MAX_BLOCK_SIZE
    ensures FinalPixel(img, s, quality, py, px) == BLACK
    ensures var compressed := Quantize(CellBlock(img, s, quality, y, x), quality);
            y + compressed.height <= img.height && x + compressed.width <= img.width &&
            Paste(before, compressed, x, y).rows[py][px] == before.rows[py][px]
  {
    AdaptiveSizeChoices(GetBlock(img, x, y, s), s, quality);
  }

  /** Pasting the quantized block of the cell with origin (`y`, `x`) gives
      each pixel its final value once the origin after (`y`, `x`) is
      reached, and leaves the zero of a pixel still to be processed. */
  lemma PixelAfterCell(before: Image, img: Image, s: nat, quality: real,
                       y: nat, x: nat, py: nat, px: nat)
    requires img.Valid() && s > 0 && 0.0 <= quality <= 1.0
    requires before.Valid() && before.height == img.height && before.width == img.width
    requires y < img.height && x < img.width && OnGrid(y, s) && OnGrid(x, s)
    requires py < img.height && px < img.width
    requires Done(py, px, y, x, s) ==> before.rows[py][px] == FinalPixel(img, s, quality, py, px)
    requires s > MAX_BLOCK_SIZE && !Done(py, px, y, x, s) ==> before.rows[py][px] == BLACK
    ensures var compressed := Quantize(CellBlock(img, s, quality, y, x), quality);
            y + compressed.height <= img.height && x + compressed.width <= img.width &&
            var after := Paste(before, compressed, x, y);
            (Done(py, px, y, x + s, s) ==> after.rows[py][px] == FinalPixel(img, s, quality, py, px)) &&
            (s > MAX_BLOCK_SIZE && !Done(py, px, y, x + s, s) ==> after.rows[py][px] == BLACK)
  {
    var cell := CellBlock(img, s, quality, y, x);
    var compressed := Quantize(cell, quality);
    var after := Paste(before, compressed, x, y);
    if Done(py, px, y, x + s, s) && !Done(py, px, y, x, s) {
      CellStartInCell(py, y, s);
      CellStartInCell(px, x, s);
      if py - y < cell.height && px - x < cell.width {
        CellWriteReached(before, img, s, quality, y, x, py, px);
      } else {
        CellWriteMissed(before, img, s, quality, y, x, py, px);
      }
    } else if Done(py, px, y, x, s) || s > MAX_BLOCK_SIZE {
      AdaptiveSizeChoices(GetBlock(img, x, y, s), s, quality);
      assert after.rows[py][px] == before.rows[py][px];
    }
  }

  /** Pasting the quantized block of the cell with origin (`y`, `x`) moves
      the processed region on by one cell. */
  lemma CellWritten(before: Image, img: Image, s: nat, quality: real, y: nat, x: nat)
    requires img.Valid() && s > 0 && 0.0 <= quality <= 1.0
    requires before.Valid() && before.height == img.height && before.width == img.width
    requires y < img.height && x < img.width && OnGrid(y, s) && OnGrid(x, s)
    requires Filled(before, img, s, quality, y, x)
    ensures var compressed := Quantize(CellBlock(img, s, quality, y, x), quality);
            y + compressed.height <= img.height && x + compressed.width <= img.width &&
            Filled(Paste(before, compressed, x, y), img, s, quality, y, x + s)
  {
    var compressed := Quantize(CellBlock(img, s, quality, y, x), quality);
    var after := Paste(before, compressed, x, y);
    forall py, px | 0 <= py < img.height && 0 <= px < img.width
      ensures Done(py, px, y, x + s, s) ==> after.rows[py][px] == FinalPixel(img, s, quality, py, px)
      ensures s > MAX_BLOCK_SIZE && !Done(py, px, y, x + s, s) ==> after.rows[py][px] == BLACK
    {
      PixelAfterCell(before, img, s, quality, y, x, py, px);
    }
  }

  /** Once the origins of a band are all processed, every pixel of the band
      is processed. */
  lemma BandFinished(raster: Image, img: Image, s: nat, quality: real, y: nat, x: nat)
    requires img.Valid() && s > 0 && 0.0 <= quality <= 1.0
    requires raster.Valid() && raster.height == img.height && raster.width == img.width
    requires x >= img.width && Filled(raster, img, s, quality, y, x)
    ensures Filled(raster, img, s, quality, y + s, 0)
  {
  }

  /** Rows a block of the band starting at row `y` can reach: its own `s`
      rows, or the grown size when that is larger. */
  predicate InBandReach(py: nat, y: nat, s: nat) {
    y <= py < y + Max(s, GrownSize(s))
  }

  /** `a` and `b` agree on every pixel outside the rows the band starting
      at row `y` can reach. */
  ghost predicate SameOutsideBand(a: Image, b: Image, y: nat, s: nat)
    requires a.Valid() && b.Valid() && a.height == b.height && a.width == b.width
  {
    forall py, px :: 0 <= py < a.height && 0 <= px < a.width && !InBandReach(py, y, s) ==>
      a.rows[py][px] == b.rows[py][px]
  }

  /** No block of the band starting at row `y` reaches past
      `InBandReach`. */
  lemma CellWithinReach(img: Image, s: nat, quality: real, y: nat, x: nat)
    requires img.Valid() && s > 0 && 0.0 <= quality <= 1.0
    requires y < img.height && x < img.width
    ensures CellBlock(img, s, quality, y, x).height <= Max(s, GrownSize(s))
  {
    AdaptiveSizeChoices(GetBlock(img, x, y, s), s, quality);
  }

  /** Pasting a block no taller than the band's reach at row `y` keeps
      every pixel outside that reach. */
  lemma PasteKeepsOutsideBand(start: Image, before: Image, block: Image, x: nat, y: nat, s: nat)
    requires start.Valid() && before.Valid() && block.Valid()
    requires before.height == start.height && before.width == start.width
    requires y + block.height <= before.height && x + block.width <= before.width
    requires block.height <= Max(s, GrownSize(s))
    requires SameOutsideBand(before, start, y, s)
    ensures SameOutsideBand(Paste(before, block, x, y), start, y, s)
  {
  }

  /** One step of the scan: sizes, quantizes and writes the block whose
      origin is (`y`, `x`). */
  method CompressCell(out: array2<Pixel>, img: Image, s: nat, quality: real, y: nat, x: nat)
    requires img.Valid() && s > 0 && 0.0 <= quality <= 1.0
    requires out.Length0 == img.height && out.Length1 == img.width
    requires y < img.height && x < img.width && OnGrid(y, s) && OnGrid(x, s)
    requires Filled(Contents(out), img, s, quality, y, x)
    modifies out
    ensures Contents(out) == Paste(old(Contents(out)), Quantize(CellBlock(img, s, quality, y, x), quality), x, y)
    ensures Filled(Contents(out), img, s, quality, y, x + s)
  {
    var block := GetBlock(img, x, y, s);
    var adaptiveBlockSize := AdjustBlockSize(block, s, quality);
    var adjustedBlock := GetBlock(img, x, y, adaptiveBlockSize);
    var compressedBlock := CompressBlockWithQuality(adjustedBlock, quality);
    CellWritten(Contents(out), img, s, quality, y, x);
    SetBlock(out, x, y, compressedBlock, adaptiveBlockSize);
  }

  /** The inner scan of the pass: processes the origins (`y`, 0),
      (`y`, `s`), ... of one band of rows, left to right. */
  method CompressBand(out: array2<Pixel>, img: Image, s: nat, quality: real, y: nat)
    requires img.Valid() && s > 0 && 0.0 <= quality <= 1.0
    requires out.Length0 == img.height && out.Length1 == img.width
    requires y < img.height && OnGrid(y, s)
    requires Filled(Contents(out), img, s, quality, y, 0)
    modifies out
    ensures Filled(Contents(out), img, s, quality, y + s, 0)
    ensures SameOutsideBand(Contents(out), old(Contents(out)), y, s)
  {
    ghost var start := Contents(out);
    var x := 0;
    while x < img.width
      invariant OnGrid(x, s)
      invariant Filled(Contents(out), img, s, quality, y, x)
      invariant SameOutsideBand(Contents(out), start, y, s)
    {
      ghost var before := Contents(out);
      CompressCell(out, img, s, quality, y, x);
      CellWithinReach(img, s, quality, y, x);
      PasteKeepsOutsideBand(start, before, Quantize(CellBlock(img, s, quality, y, x), quality), x, y, s);
      x := x + s;
    }
    BandFinished(Contents(out), img, s, quality, y, x);
  }

  /** Compresses `img`. Every origin's block is written in scan order, so
      where an enlarged block spills into later grid cells those cells'
      own blocks overwrite the spill: each pixel ends up with the value
      its own cell's block gives it. */
  method CompressImage(img: Image, initialBlockSize: nat, quality: real) returns (out: array2<Pixel>)
    requires img.Valid() && initialBlockSize >= 1 && 0.0 <= quality <= 1.0
    ensures fresh(out)
    ensures out.Length0 == img.height && out.Length1 == img.width
    ensures forall py, px :: 0 <= py < img.height && 0 <= px < img.width ==>
              out[py, px] == FinalPixel(img, initialBlockSize, quality, py, px)
  {
    var s := initialBlockSize;
    out := new Pixel[img.height, img.width]((i, j) => BLACK);
    var y := 0;
    while y < img.height
      invariant OnGrid(y, s)
      invariant Filled(Contents(out), img, s, quality, y, 0)
    {
      CompressBand(out, img, s, quality, y);
      y := y + s;
    }
  }

  /** For a nominal size of at most 32 the block of every cell covers the
      whole cell, so every pixel is written, with the matching pixel of its
      cell's quantized block. */
  lemma CellCoversPixel(img: Image, s: nat, quality: real, oy: nat, ox: nat, py: nat, px: nat)
    requires img.Valid() && 1 <= s <= MAX_BLOCK_SIZE && 0.0 <= quality <= 1.0
    requires py < img.height && px < img.width
    requires CellStart(py, s) == oy && CellStart(px, s) == ox
    ensures var cell := CellBlock(img, s, quality, oy, ox);
            py - oy < cell.height && px - ox < cell.width &&
            cell.rows[py - oy][px - ox] == img.rows[py][px] &&
            FinalPixel(img, s, quality, py, px) == Quantize(cell, quality).rows[py - oy][px - ox]
  {
    AdaptiveSizeChoices(GetBlock(img, ox, oy, s), s, quality);
  }

  /** So every output pixel is the blend of the input pixel toward the
      average colour of its cell's (possibly enlarged) block, truncated
      channel by channel. */
  lemma EveryPixelBlended(img: Image, s: nat, quality: real, py: nat, px: nat)
    requires img.Valid() && 1 <= s <= MAX_BLOCK_SIZE && 0.0 <= quality <= 1.0
    requires py < img.height && px < img.width
    ensures var cell := CellBlock(img, s, quality, CellStart(py, s), CellStart(px, s));
            FinalPixel(img, s, quality, py, px) == BlendPixel(MeanColor(cell), img.rows[py][px], quality)
  {
    var oy, ox := CellStart(py, s), CellStart(px, s);
    var cell := CellBlock(img, s, quality, oy, ox);
    CellCoversPixel(img, s, quality, oy, ox, py, px);
    QuantizeAt(cell, quality, py - oy, px - ox);
  }

  /** With a nominal size of at most 32, an image of a single colour comes
      back unchanged, whatever the quality. */
  lemma FilledImageUnchanged(img: Image, c: Pixel, s: nat, quality: real, py: nat, px: nat)
    requires img.Valid() && FilledWith(img, c) && 1 <= s <= MAX_BLOCK_SIZE && 0.0 <= quality <= 1.0
    requires py < img.height && px < img.width
    ensures FinalPixel(img, s, quality, py, px) == c
  {
    var oy, ox := CellStart(py, s), CellStart(px, s);
    var cell := CellBlock(img, s, quality, oy, ox);
    CellCoversPixel(img, s, quality, oy, ox, py, px);
    assert FilledWith(cell, c);
    FilledBlockUnchanged(cell, c, quality);
  }

  /** With a nominal size of at most 32 and quality 1, the image comes back
      unchanged. */
  lemma FullQualityImageUnchanged(img: Image, s: nat, py: nat, px: nat)
    requires img.Valid() && 1 <= s <= MAX_BLOCK_SIZE
    requires py < img.height && px < img.width
    ensures FinalPixel(img, s, 1.0, py, px) == img.rows[py][px]
  {
    var oy, ox := CellStart(py, s), CellStart(px, s);
    CellCoversPixel(img, s, 1.0, oy, ox, py, px);
    FullQualityKeepsBlock(CellBlock(img, s, 1.0, oy, ox));
  }

  /** With quality 0 no block grows (a score is never negative), and every
      pixel becomes the truncated average colour of its own grid cell,
      whatever the nominal size. */
  lemma ZeroQualityFlattensCells(img: Image, s: nat, py: nat, px: nat)
    requires img.Valid() && s >= 1
    requires py < img.height && px < img.width
    ensures var oy, ox := CellStart(py, s), CellStart(px, s);
            CellSize(img, s, 0.0, oy, ox) == s &&
            FinalPixel(img, s, 0.0, py, px) == FlooredMean(GetBlock(img, ox, oy, s))
  {
    var oy, ox := CellStart(py, s), CellStart(px, s);
    var block := GetBlock(img, ox, oy, s);
    ScoreZeroIffNeighboursEqual(block);
    var cell := CellBlock(img, s, 0.0, oy, ox);
    assert cell == block;
    assert py - oy < cell.height && px - ox < cell.width;
    ZeroQualityFlattens(cell);
    assert FinalPixel(img, s, 0.0, py, px) == Quantize(cell, 0.0).rows[py - oy][px - ox];
  }

  /** For a nominal size above 32 the cap makes a grown block smaller than
      its cell: in an image of a single colour with a positive quality,
      every block grows to 32, and the pixels of a cell 32 or more rows
      (or columns) past its origin keep the zero the output starts with. */
  lemma OversizedCellLeavesZeros(img: Image, c: Pixel, s: nat, quality: real, py: nat, px: nat)
    requires img.Valid() && FilledWith(img, c) && s > MAX_BLOCK_SIZE && 0.0 < quality <= 1.0
    requires py < img.height && px < img.width
    requires py - CellStart(py, s) >= MAX_BLOCK_SIZE || px - CellStart(px, s) >= MAX_BLOCK_SIZE
    ensures FinalPixel(img, s, quality, py, px) == BLACK
  {
    var oy, ox := CellStart(py, s), CellStart(px, s);
    var block := GetBlock(img, ox, oy, s);
    assert FilledWith(block, c);
    FlatBlockGrowsIffQualityPositive(block, c, s, quality);
  }
}