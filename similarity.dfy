/** Similarity analysis of a block and the adaptive choice of its edge
    length. */
module Similarity {
  import opened Pixels
  import opened Blocks
  import Arith

  /** Largest block edge the sizer ever grows a block to. */
  const MAX_BLOCK_SIZE := 32

  /** Number of iterations of Python's `range(n - 1)`: none when `n` is 0. */
  function Interior(n: nat): nat {
    if n == 0 then 0 else n - 1
  }

  /** Distances from the pixel at (`y`, `x`) to its right neighbour and to
      the neighbour below it. */
  function PairDifference(b: Image, y: nat, x: nat): (d: nat)
    requires b.Valid() && y + 1 < b.height && x + 1 < b.width
    ensures d <= 2 * 765
    ensures d == 0 <==> NeighboursEqual(b, y, x)
  {
    ColorDifference(b.rows[y][x], b.rows[y][x + 1]) + ColorDifference(b.rows[y][x], b.rows[y + 1][x])
  }

  /** Sum of `PairDifference` over the first `n` interior columns of row `y`. */
  function RowDifference(b: Image, y: nat, n: nat): nat
    requires b.Valid() && y + 1 < b.height && n <= Interior(b.width)
  {
    if n == 0 then 0 else RowDifference(b, y, n - 1) + PairDifference(b, y, n - 1)
  }

  /** Sum of `RowDifference` over the first `m` interior rows. */
  function DifferenceSum(b: Image, m: nat): nat
    requires b.Valid() && m <= Interior(b.height)
  {
    if m == 0 then 0 else DifferenceSum(b, m - 1) + RowDifference(b, m - 1, Interior(b.width))
  }

  /** The accumulated `sum_diff` of a whole block. */
  function BlockDifference(b: Image): nat
    requires b.Valid()
  {
    DifferenceSum(b, Interior(b.height))
  }

  /** Number of neighbour pairs the accumulation visits. */
  function PairCount(b: Image): nat {
    2 * Interior(b.height) * Interior(b.width)
  }

  /** Average difference per pixel, `sum_diff / pixel_count`. */
  function Score(b: Image): real
    requires b.Valid() && b.height > 0 && b.width > 0
  {
    BlockDifference(b) as real / (b.height * b.width) as real
  }

  /** The size a block judged similar is given: doubled, capped at 32. */
  function GrownSize(blockSize: nat): nat {
    Min(blockSize * 2, MAX_BLOCK_SIZE)
  }

  /** The size the sizer chooses: grown when the score is strictly below
      50 times the quality, unchanged otherwise. */
  function AdaptiveSize(b: Image, blockSize: nat, quality: real): nat
    requires b.Valid() && b.height > 0 && b.width > 0
  {
    if Score(b) < 50.0 * quality then GrownSize(blockSize) else blockSize
  }

  /** Accumulates the neighbour distances of `block` and decides its
      effective size. The block must have a pixel: for an empty block the
      division by the pixel count fails. */
  method AdjustBlockSize(block: Image, blockSize: nat, quality: real) returns (size: nat)
    requires block.Valid() && block.height > 0 && block.width > 0
    ensures size == AdaptiveSize(block, blockSize, quality)
  {
    var pixelCount := block.height * block.width;
    var sumDiff := 0;
    var y := 0;
    while y < block.height - 1
      invariant 0 <= y <= Interior(block.height)
      invariant sumDiff == DifferenceSum(block, y)
    {
      var x := 0;
      while x < block.width - 1
        invariant 0 <= x <= Interior(block.width)
        invariant sumDiff == DifferenceSum(block, y) + RowDifference(block, y, x)
      {
        var rgb1 := block.rows[y][x];
        var rgb2 := block.rows[y][x + 1];
        var rgb3 := block.rows[y + 1][x];
        sumDiff := sumDiff + ColorDifference(rgb1, rgb2) + ColorDifference(rgb1, rgb3);
        assert RowDifference(block, y, x + 1) == RowDifference(block, y, x) + PairDifference(block, y, x);
        x := x + 1;
      }
      assert x == Interior(block.width);
      assert DifferenceSum(block, y + 1) == DifferenceSum(block, y) + RowDifference(block, y, x);
      y := y + 1;
    }
    assert sumDiff == BlockDifference(block);
    Arith.ProductPositive(block.height, block.width);
    var avgDiff := sumDiff as real / pixelCount as real;
    assert avgDiff == Score(block);
    if avgDiff < 50.0 * quality {
      size := Min(blockSize * 2, MAX_BLOCK_SIZE);
    } else {
      size := blockSize;
    }
  }

  /** The sizer either keeps the nominal size or grows it; a nominal size
      of at most 32 never shrinks, while a nominal size above 32 "grows" to
      32, which is smaller. */
  lemma AdaptiveSizeChoices(b: Image, blockSize: nat, quality: real)
    requires b.Valid() && b.height > 0 && b.width > 0
    ensures AdaptiveSize(b, blockSize, quality) == blockSize
         || AdaptiveSize(b, blockSize, quality) == Min(2 * blockSize, MAX_BLOCK_SIZE)
    ensures blockSize <= MAX_BLOCK_SIZE ==> blockSize <= AdaptiveSize(b, blockSize, quality) <= MAX_BLOCK_SIZE
    ensures blockSize > MAX_BLOCK_SIZE ==> MAX_BLOCK_SIZE <= AdaptiveSize(b, blockSize, quality) <= blockSize
    ensures blockSize > MAX_BLOCK_SIZE ==> GrownSize(blockSize) < blockSize
  {
  }

  /** The comparison is strict: a score equal to the threshold keeps the
      nominal size. */
  lemma ThresholdIsStrict(b: Image, blockSize: nat, quality: real)
    requires b.Valid() && b.height > 0 && b.width > 0
    requires Score(b) == 50.0 * quality
    ensures AdaptiveSize(b, blockSize, quality) == blockSize
  {
  }

  /** Each row visits `2 * n` neighbour pairs, each at most 765 apart. */
  lemma {:induction false} RowDifferenceBound(b: Image, y: nat, n: nat)
    requires b.Valid() && y + 1 < b.height && n <= Interior(b.width)
    ensures RowDifference(b, y, n) <= 1530 * n
  {
    if n > 0 {
      RowDifferenceBound(b, y, n - 1);
    }
  }

  /** `m` rows add at most `1530 * (w - 1)` each. */
  lemma {:induction false} DifferenceSumBound(b: Image, m: nat)
    requires b.Valid() && m <= Interior(b.height)
    ensures DifferenceSum(b, m) <= Arith.Repeat(1530 * Interior(b.width), m)
  {
    if m > 0 {
      DifferenceSumBound(b, m - 1);
      RowDifferenceBound(b, m - 1, Interior(b.width));
    }
  }

  /** The accumulation visits `2 * (h - 1) * (w - 1)` neighbour pairs, so
      the sum is at most 765 times that many. */
  lemma BlockDifferenceBound(b: Image)
    requires b.Valid()
    ensures BlockDifference(b) <= 765 * PairCount(b)
  {
    DifferenceSumBound(b, Interior(b.height));
    Arith.RepeatIsProduct(1530 * Interior(b.width), Interior(b.height));
    Arith.MulRegroup(Interior(b.height), Interior(b.width));
  }

  /** The pixel at (`y`, `x`) equals its right neighbour and the one below. */
  ghost predicate NeighboursEqual(b: Image, y: nat, x: nat)
    requires b.Valid() && y + 1 < b.height && x + 1 < b.width
  {
    b.rows[y][x] == b.rows[y][x + 1] && b.rows[y][x] == b.rows[y + 1][x]
  }

  lemma {:induction false} RowDifferenceZero(b: Image, y: nat, n: nat)
    requires b.Valid() && y + 1 < b.height && n <= Interior(b.width)
    ensures RowDifference(b, y, n) == 0 <==> forall x :: 0 <= x < n ==> NeighboursEqual(b, y, x)
  {
    if n > 0 {
      RowDifferenceZero(b, y, n - 1);
    }
  }

  lemma {:induction false} DifferenceSumZero(b: Image, m: nat)
    requires b.Valid() && m <= Interior(b.height)
    ensures DifferenceSum(b, m) == 0 <==>
            forall y, x :: 0 <= y < m && 0 <= x < Interior(b.width) ==> NeighboursEqual(b, y, x)
  {
    if m > 0 {
      DifferenceSumZero(b, m - 1);
      RowDifferenceZero(b, m - 1, Interior(b.width));
    }
  }

  /** A block scores 0 exactly when every visited pixel equals its right
      neighbour and the one below; any visited pair that differs gives a
      strictly positive score. */
  lemma ScoreZeroIffNeighboursEqual(b: Image)
    requires b.Valid() && b.height > 0 && b.width > 0
    ensures Score(b) >= 0.0
    ensures Score(b) == 0.0 <==>
            forall y, x :: 0 <= y < Interior(b.height) && 0 <= x < Interior(b.width) ==>
              NeighboursEqual(b, y, x)
  {
    DifferenceSumZero(b, Interior(b.height));
    Arith.ProductPositive(b.height, b.width);
    var n := (b.height * b.width) as real;
    Arith.DivZero(BlockDifference(b) as real, n);
  }

  /** A block of one row, of one column, or of a single colour scores 0, so
      it grows exactly when the quality is positive. */
  lemma FlatBlockGrowsIffQualityPositive(b: Image, c: Pixel, blockSize: nat, quality: real)
    requires b.Valid() && b.height > 0 && b.width > 0
    requires b.height == 1 || b.width == 1 || FilledWith(b, c)
    ensures Score(b) == 0.0
    ensures AdaptiveSize(b, blockSize, quality) == if quality > 0.0 then GrownSize(blockSize) else blockSize
  {
    ScoreZeroIffNeighboursEqual(b);
  }
}
