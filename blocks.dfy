/** Rasters as values, clipped block extraction and in-place block
    composition into the output raster. */
module Blocks {
  import opened Pixels

  /** A `height` x `width` raster of pixels (a numpy array of shape
      (height, width, 3)); `rows[y][x]` is the pixel at row `y`, column `x`.
      Height and width are kept apart from `rows` so that a raster with no
      rows still has a width. */
  datatype Image = Image(height: nat, width: nat, rows: seq<seq<Pixel>>) {

    ghost predicate Valid() {
      |rows| == height &&
      forall y :: 0 <= y < height ==> |rows[y]| == width
    }
  }

  /** Every pixel of `img` is `c`. */
  ghost predicate FilledWith(img: Image, c: Pixel)
    requires img.Valid()
  {
    forall y, x :: 0 <= y < img.height && 0 <= x < img.width ==> img.rows[y][x] == c
  }

  function Min(a: int, b: int): int {
    if a < b then a else b
  }

  function Max(a: int, b: int): int {
    if a < b then b else a
  }

  /** Length of the Python slice `[start:min(start + size, limit)]` of a
      sequence of length `limit`: empty once `start` is past the end. */
  function SliceLength(start: nat, size: nat, limit: nat): nat {
    var stop := Min(start + size, limit);
    if start <= stop then stop - start else 0
  }

  /** The block of `img` whose top-left corner is (`sy`, `sx`) and whose
      nominal edge is `size`, clipped to the raster. */
  function GetBlock(img: Image, sx: nat, sy: nat, size: nat): (b: Image)
    requires img.Valid()
    ensures b.Valid()
    ensures b.height == if sy < img.height then Min(size, img.height - sy) else 0
    ensures b.width == if sx < img.width then Min(size, img.width - sx) else 0
    ensures forall i, j :: 0 <= i < b.height && 0 <= j < b.width ==>
              b.rows[i][j] == img.rows[sy + i][sx + j]
  {
    var h := SliceLength(sy, size, img.height);
    var w := SliceLength(sx, size, img.width);
    Image(h, w, seq(h, i requires 0 <= i < h =>
                  seq(w, j requires 0 <= j < w => img.rows[sy + i][sx + j])))
  }

  /** A block taken at an origin inside the raster with a positive size has
      at least one pixel, so the pixel counts it is divided by are positive. */
  lemma GetBlockNonEmpty(img: Image, sx: nat, sy: nat, size: nat)
    requires img.Valid()
    requires sy < img.height && sx < img.width && size >= 1
    ensures GetBlock(img, sx, sy, size).height >= 1
    ensures GetBlock(img, sx, sy, size).width >= 1
    ensures GetBlock(img, sx, sy, size).height * GetBlock(img, sx, sy, size).width > 0
  {
  }

  /** The raster an array of pixels holds. */
  ghost function Contents(out: array2<Pixel>): (r: Image)
    reads out
    ensures r.Valid() && r.height == out.Length0 && r.width == out.Length1
    ensures forall y, x :: 0 <= y < r.height && 0 <= x < r.width ==> r.rows[y][x] == out[y, x]
  {
    Image(out.Length0, out.Length1,
          seq(out.Length0, i requires 0 <= i < out.Length0 reads out =>
            seq(out.Length1, j requires 0 <= j < out.Length1 reads out => out[i, j])))
  }

  /** `dst` with the rectangle of `block`'s extent at (`sy`, `sx`) replaced
      by `block`; the rectangle must lie inside `dst`. */
  function Paste(dst: Image, block: Image, sx: nat, sy: nat): (r: Image)
    requires dst.Valid() && block.Valid()
    requires sy + block.height <= dst.height && sx + block.width <= dst.width
    ensures r.Valid() && r.height == dst.height && r.width == dst.width
    ensures forall y, x :: 0 <= y < r.height && 0 <= x < r.width ==>
              r.rows[y][x] == if sy <= y < sy + block.height && sx <= x < sx + block.width
                              then block.rows[y - sy][x - sx]
                              else dst.rows[y][x]
  {
    Image(dst.height, dst.width,
          seq(dst.height, y requires 0 <= y < dst.height =>
            seq(dst.width, x requires 0 <= x < dst.width =>
              if sy <= y < sy + block.height && sx <= x < sx + block.width
              then block.rows[y - sy][x - sx]
              else dst.rows[y][x])))
  }

  /** Two rasters of the same shape that agree pixel by pixel are equal. */
  lemma ImageExt(a: Image, b: Image)
    requires a.Valid() && b.Valid() && a.height == b.height && a.width == b.width
    requires forall y, x :: 0 <= y < a.height && 0 <= x < a.width ==> a.rows[y][x] == b.rows[y][x]
    ensures a == b
  {
    assert forall y | 0 <= y < a.height :: a.rows[y] == b.rows[y];
  }

  /** Pasting back a block cut out at the same place changes nothing. */
  lemma PasteGetBlock(img: Image, sx: nat, sy: nat, size: nat)
    requires img.Valid() && sy < img.height && sx < img.width
    ensures Paste(img, GetBlock(img, sx, sy, size), sx, sy) == img
  {
    ImageExt(Paste(img, GetBlock(img, sx, sy, size), sx, sy), img);
  }

  /** A block of the shape a cut of nominal size `size` at (`sy`, `sx`)
      has, once pasted there, is what that cut gives back. */
  lemma GetBlockPaste(dst: Image, block: Image, sx: nat, sy: nat, size: nat)
    requires dst.Valid() && block.Valid() && sy < dst.height && sx < dst.width
    requires block.height == Min(size, dst.height - sy) && block.width == Min(size, dst.width - sx)
    ensures GetBlock(Paste(dst, block, sx, sy), sx, sy, size) == block
  {
    ImageExt(GetBlock(Paste(dst, block, sx, sy), sx, sy, size), block);
  }

  /** Copies `block` into `out` with its top-left pixel at (`sy`, `sx`).
      The nominal `blockSize` plays no part: the block's own extent decides
      what is written. The rectangle must lie inside `out`, as numpy's slice
      assignment demands of a block of this shape. */
  method SetBlock(out: array2<Pixel>, sx: nat, sy: nat, block: Image, blockSize: nat)
    requires block.Valid()
    requires sy + block.height <= out.Length0 && sx + block.width <= out.Length1
    modifies out
    ensures Contents(out) == Paste(old(Contents(out)), block, sx, sy)
  {
    ghost var before := Contents(out);
    var i := 0;
    while i < block.height
      invariant 0 <= i <= block.height
      invariant forall y, x :: 0 <= y < out.Length0 && 0 <= x < out.Length1 ==>
                  out[y, x] == if sy <= y < sy + i && sx <= x < sx + block.width
                               then block.rows[y - sy][x - sx]
                               else before.rows[y][x]
    {
      var j := 0;
      while j < block.width
        invariant 0 <= j <= block.width
        invariant forall y, x :: 0 <= y < out.Length0 && 0 <= x < out.Length1 ==>
                    out[y, x] == if (sy <= y < sy + i && sx <= x < sx + block.width)
                                    || (y == sy + i && sx <= x < sx + j)
                                 then block.rows[y - sy][x - sx]
                                 else before.rows[y][x]
      {
        out[sy + i, sx + j] := block.rows[i][j];
        j := j + 1;
      }
      i := i + 1;
    }
    ImageExt(Contents(out), Paste(before, block, sx, sy));
  }
}
