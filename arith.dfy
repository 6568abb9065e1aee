/** Small facts of integer and real arithmetic, kept apart so that each is
    proved in a context of its own. */
module Arith {

  lemma MulSucc(k: int, m: int)
    ensures k * (m + 1) == k * m + k
  {
  }

  /** `k` added up `m` times. */
  function Repeat(k: int, m: nat): int {
    if m == 0 then 0 else Repeat(k, m - 1) + k
  }

  lemma {:induction false} RepeatIsProduct(k: int, m: nat)
    ensures Repeat(k, m) == k * m
  {
    if m > 0 {
      RepeatIsProduct(k, m - 1);
      MulSucc(k, m - 1);
    }
  }

  lemma ProductPositive(h: int, w: int)
    requires h > 0 && w > 0
    ensures h * w > 0
    ensures (h * w) as real > 0.0
  {
  }

  lemma MulRegroup(h: int, w: int)
    ensures 765 * (2 * h * w) == (1530 * w) * h
  {
  }

  lemma DivZero(s: real, n: real)
    requires n > 0.0 && s >= 0.0
    ensures s / n >= 0.0
    ensures s / n == 0.0 <==> s == 0.0
  {
    assert (s / n) * n == s;
  }

  /** A sum of `h * w` channel values, each in [0, 255], averages into
      [0, 255]. */
  lemma MeanBound(s: int, h: int, w: int)
    requires h > 0 && w > 0 && 0 <= s <= (255 * w) * h
    ensures 0.0 <= s as real / (h * w) as real <= 255.0
  {
    ProductPositive(h, w);
    var n := (h * w) as real;
    assert (255 * w) * h == 255 * (h * w);
    assert s as real <= 255.0 * n;
    assert (s as real / n) * n == s as real;
  }

  /** `h * w` copies of `v` average to `v`. */
  lemma MeanOfConstant(v: int, h: int, w: int)
    requires h > 0 && w > 0
    ensures ((v * w) * h) as real / (h * w) as real == v as real
  {
    ProductPositive(h, w);
    assert (v * w) * h == v * (h * w);
    assert ((v * (h * w)) as real) == v as real * (h * w) as real;
  }

  /** Scaling a `d` by a `q` in [0, 1] moves it toward 0 without crossing it. */
  lemma ScaleBetween(q: real, d: real)
    requires 0.0 <= q <= 1.0
    ensures d >= 0.0 ==> 0.0 <= q * d <= d
    ensures d <= 0.0 ==> d <= q * d <= 0.0
    ensures q == 0.0 ==> q * d == 0.0
    ensures q == 1.0 ==> q * d == d
  {
    assert d - q * d == (1.0 - q) * d;
  }

  /** The blend `(1 - q) * a + q * v` is `a` moved toward `v` by the
      fraction `q` of the distance. */
  lemma BlendShift(a: real, v: real, q: real)
    ensures (1.0 - q) * a + q * v == a + q * (v - a)
  {
  }

  lemma FloorMonotone(lo: real, x: real, hi: real)
    requires lo <= x <= hi
    ensures lo.Floor <= x.Floor <= hi.Floor
  {
  }
}
