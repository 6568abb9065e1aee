/** Pixels of an 8-bit RGB raster and the colour distance used by the
    similarity analysis. */
module Pixels {

  /** One 8-bit unsigned colour component (numpy `uint8`). */
  type Channel = c: int | 0 <= c < 256

  datatype Pixel = Pixel(r: Channel, g: Channel, b: Channel) {

    /** Component `c` of the pixel, in the order red, green, blue. */
    function Get(c: nat): Channel
      requires c < 3
    {
      if c == 0 then r else if c == 1 then g else b
    }
  }

  /** The value `np.zeros_like` fills a fresh raster with. */
  const BLACK := Pixel(0, 0, 0)

  /** Subtraction of two `uint8` values: numpy wraps the result modulo 256. */
  function WrapSub(a: Channel, b: Channel): (d: Channel)
    ensures a >= b ==> d == a - b
    ensures a < b ==> d == 256 - (b - a)
  {
    (a - b) % 256
  }

  /** Colour distance between two pixels: the sum over the three channels of
      their `uint8` difference. Since the difference has already wrapped,
      the absolute value applied to it changes nothing. */
  function ColorDifference(p: Pixel, o: Pixel): (d: int)
    ensures 0 <= d <= 765
    ensures d == 0 <==> p == o
  {
    WrapSub(p.r, o.r) + WrapSub(p.g, o.g) + WrapSub(p.b, o.b)
  }

  /** When every channel of `p` is at least that of `o`, the wrapped
      difference is the sum of absolute differences. */
  lemma ColorDifferenceWhenDominant(p: Pixel, o: Pixel)
    requires p.r >= o.r && p.g >= o.g && p.b >= o.b
    ensures ColorDifference(p, o) == Abs(p.r - o.r) + Abs(p.g - o.g) + Abs(p.b - o.b)
  {
  }

  /** The wrapped distance is not symmetric: the two directions add up to
      256 for every channel on which the pixels differ. */
  lemma ColorDifferenceBothWays(p: Pixel, o: Pixel)
    ensures ColorDifference(p, o) + ColorDifference(o, p)
         == 256 * (Differs(p.r, o.r) + Differs(p.g, o.g) + Differs(p.b, o.b))
  {
  }

  function Abs(v: int): nat {
    if v < 0 then -v else v
  }

  function Differs(a: Channel, b: Channel): nat {
    if a == b then 0 else 1
  }
}
