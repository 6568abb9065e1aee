/** Quantization of a block: every pixel is blended toward the block's
    average colour, weighted by the quality. */
module Quantizer {
  import opened Pixels
  import opened Blocks
  import Arith

  /** A colour with real components: the per-channel average of a block,
      computed exactly (numpy computes it in double precision). */
  datatype Color = Color(r: real, g: real, b: real) {
    ghost predicate InRange() {
      0.0 <= r <= 255.0 && 0.0 <= g <= 255.0 && 0.0 <= b <= 255.0
    }
  }

  /** Sum of channel `c` along a row of pixels. */
  function RowSum(row: seq<Pixel>, c: nat): (s: int)
    requires c < 3
    ensures 0 <= s <= 255 * |row|
  {
    if row == [] then 0 else RowSum(row[..|row| - 1], c) + row[|row| - 1].Get(c)
  }

  /** Sum of channel `c` over rows that all have `w` pixels. */
  function ChannelSum(rows: seq<seq<Pixel>>, w: nat, c: nat): (s: int)
    requires c < 3
    requires forall y :: 0 <= y < |rows| ==> |rows[y]| == w
    ensures 0 <= s <= (255 * w) * |rows|
  {
    if rows == [] then 0
    else
      Arith.MulSucc(255 * w, |rows| - 1);
      ChannelSum(rows[..|rows| - 1], w, c) + RowSum(rows[|rows| - 1], c)
  }

  /** Average of channel `c` over a non-empty block. */
  function Mean(b: Image, c: nat): (m: real)
    requires b.Valid() && b.height > 0 && b.width > 0 && c < 3
    ensures 0.0 <= m <= 255.0
  {
    var s := ChannelSum(b.rows, b.width, c);
    Arith.MeanBound(s, b.height, b.width);
    s as real / (b.height * b.width) as real
  }

  /** `block.mean(axis=(0, 1))`: the average colour of a non-empty block. */
  function MeanColor(b: Image): (m: Color)
    requires b.Valid() && b.height > 0 && b.width > 0
    ensures m.InRange()
  {
    Color(Mean(b, 0), Mean(b, 1), Mean(b, 2))
  }

  /** The weighted blend `(1 - quality) * mean + quality * v`: `mean`
      moved toward `v` by the fraction `quality` of the distance, so for a
      quality in [0, 1] it lies between its ends. */
  function Mix(mean: real, v: real, quality: real): (x: real)
    requires 0.0 <= quality <= 1.0
    ensures mean <= v ==> mean <= x <= v
    ensures v <= mean ==> v <= x <= mean
    ensures quality == 0.0 ==> x == mean
    ensures quality == 1.0 ==> x == v
  {
    Arith.ScaleBetween(quality, v - mean);
    mean + quality * (v - mean)
  }

  /** `Mix` is the weighted blend as the source writes it. */
  lemma MixIsWeightedBlend(mean: real, v: real, quality: real)
    requires 0.0 <= quality <= 1.0
    ensures Mix(mean, v, quality) == (1.0 - quality) * mean + quality * v
  {
    Arith.BlendShift(mean, v, quality);
  }

  /** One channel of a quantized pixel: the blend truncated by
      `astype(int)`. Truncation is the floor here because the blend is never
      negative, and since the blend lies between `mean` and `v` the stored
      value never leaves the 8-bit range. */
  function Blend(mean: real, v: Channel, quality: real): (r: Channel)
    requires 0.0 <= mean <= 255.0 && 0.0 <= quality <= 1.0
    ensures quality == 0.0 ==> r == mean.Floor
    ensures quality == 1.0 ==> r == v
    ensures mean == v as real ==> r == v
    ensures mean <= v as real ==> mean.Floor <= r <= v
    ensures v as real <= mean ==> v <= r <= mean.Floor
  {
    var vr := v as real;
    var x := Mix(mean, vr, quality);
    if mean <= vr then
      Arith.FloorMonotone(mean, x, vr);
      x.Floor
    else
      Arith.FloorMonotone(vr, x, mean);
      x.Floor
  }

  /** Blends every channel of `p` toward the average colour `m`. */
  function BlendPixel(m: Color, p: Pixel, quality: real): Pixel
    requires m.InRange() && 0.0 <= quality <= 1.0
  {
    Pixel(Blend(m.r, p.r, quality), Blend(m.g, p.g, quality), Blend(m.b, p.b, quality))
  }

  /** The quantized block. An empty block has no pixels to blend (its
      average, NaN in numpy, is never read), so a placeholder stands for
      it. */
  function Quantize(b: Image, quality: real): (r: Image)
    requires b.Valid() && 0.0 <= quality <= 1.0
    ensures r.Valid() && r.height == b.height && r.width == b.width
  {
    var m := if b.height > 0 && b.width > 0 then MeanColor(b) else Color(0.0, 0.0, 0.0);
    Image(b.height, b.width,
          seq(b.height, i requires 0 <= i < b.height =>
            seq(b.width, j requires 0 <= j < b.width => BlendPixel(m, b.rows[i][j], quality))))
  }

  lemma QuantizeAt(b: Image, quality: real, i: nat, j: nat)
    requires b.Valid() && 0.0 <= quality <= 1.0 && i < b.height && j < b.width
    ensures Quantize(b, quality).rows[i][j] == BlendPixel(MeanColor(b), b.rows[i][j], quality)
  {
  }

  /** Fills a zero-initialised array of the block's shape pixel by pixel
      with the blend toward the block's average colour. */
  method CompressBlockWithQuality(block: Image, quality: real) returns (r: Image)
    requires block.Valid() && 0.0 <= quality <= 1.0
    ensures r == Quantize(block, quality)
  {
    var h, w := block.height, block.width;
    var avgColor := if h > 0 && w > 0 then MeanColor(block) else Color(0.0, 0.0, 0.0);
    var compressed := new Pixel[h, w]((i, j) => BLACK);
    for y := 0 to h
      invariant forall i, j :: 0 <= i < y && 0 <= j < w ==>
                  compressed[i, j] == BlendPixel(avgColor, block.rows[i][j], quality)
    {
      for x := 0 to w
        invariant forall i, j :: 0 <= i < y && 0 <= j < w ==>
                    compressed[i, j] == BlendPixel(avgColor, block.rows[i][j], quality)
        invariant forall j :: 0 <= j < x ==>
                    compressed[y, j] == BlendPixel(avgColor, block.rows[y][j], quality)
      {
        compressed[y, x] := BlendPixel(avgColor, block.rows[y][x], quality);
      }
    }
    r := Image(h, w, seq(h, i requires 0 <= i < h reads compressed =>
                       seq(w, j requires 0 <= j < w reads compressed => compressed[i, j])));
    ImageExt(r, Quantize(block, quality));
  }

  /** With quality 1 the blend keeps every pixel: the block comes back
      unchanged. */
  lemma FullQualityKeepsBlock(b: Image)
    requires b.Valid()
    ensures Quantize(b, 1.0) == b
  {
    var q := Quantize(b, 1.0);
    assert forall i | 0 <= i < b.height :: q.rows[i] == b.rows[i];
  }

  /** The average colour truncated channel by channel. */
  function FlooredMean(b: Image): (p: Pixel)
    requires b.Valid() && b.height > 0 && b.width > 0
  {
    var m := MeanColor(b);
    Pixel(m.r.Floor, m.g.Floor, m.b.Floor)
  }

  /** With quality 0 every pixel of the block becomes the truncated average
      colour. */
  lemma ZeroQualityFlattens(b: Image)
    requires b.Valid() && b.height > 0 && b.width > 0
    ensures forall i, j :: 0 <= i < b.height && 0 <= j < b.width ==>
              Quantize(b, 0.0).rows[i][j] == FlooredMean(b)
  {
  }

  lemma {:induction false} RowSumFilled(row: seq<Pixel>, p: Pixel, c: nat)
    requires c < 3
    requires forall x :: 0 <= x < |row| ==> row[x] == p
    ensures RowSum(row, c) == p.Get(c) * |row|
  {
    if row != [] {
      RowSumFilled(row[..|row| - 1], p, c);
    }
  }

  lemma {:induction false} ChannelSumFilled(rows: seq<seq<Pixel>>, w: nat, p: Pixel, c: nat)
    requires c < 3
    requires forall y :: 0 <= y < |rows| ==> |rows[y]| == w
    requires forall y, x :: 0 <= y < |rows| && 0 <= x < w ==> rows[y][x] == p
    ensures ChannelSum(rows, w, c) == (p.Get(c) * w) * |rows|
  {
    if rows != [] {
      ChannelSumFilled(rows[..|rows| - 1], w, p, c);
      RowSumFilled(rows[|rows| - 1], p, c);
      Arith.MulSucc(p.Get(c) * w, |rows| - 1);
    }
  }

  /** The average colour of a block filled with `p` is `p` itself. */
  lemma MeanOfFilledBlock(b: Image, p: Pixel)
    requires b.Valid() && b.height > 0 && b.width > 0 && FilledWith(b, p)
    ensures MeanColor(b) == Color(p.r as real, p.g as real, p.b as real)
  {
    forall c | 0 <= c < 3
      ensures Mean(b, c) == p.Get(c) as real
    {
      ChannelSumFilled(b.rows, b.width, p, c);
      Arith.MeanOfConstant(p.Get(c), b.height, b.width);
    }
    assert Mean(b, 0) == p.Get(0) as real;
    assert Mean(b, 1) == p.Get(1) as real;
    assert Mean(b, 2) == p.Get(2) as real;
  }

  /** A block of a single colour is returned unchanged, whatever the
      quality. */
  lemma FilledBlockUnchanged(b: Image, p: Pixel, quality: real)
    requires b.Valid() && FilledWith(b, p) && 0.0 <= quality <= 1.0
    ensures Quantize(b, quality) == b
  {
    var q := Quantize(b, quality);
    if b.height > 0 && b.width > 0 {
      MeanOfFilledBlock(b, p);
    }
    assert forall i | 0 <= i < b.height :: q.rows[i] == b.rows[i];
  }
}
