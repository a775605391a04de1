/** Exact-arithmetic stand-ins for the host languages' numeric primitives.
    Values are unbounded mathematical integers and reals; IEEE-754 rounding
    artifacts are not modelled. */
module Numeric {

  /** One channel or grey level of an 8-bit raster (Uint8ClampedArray, PIL mode "L"). */
  type Byte = x: int | 0 <= x < 256

  function Max(a: int, b: int): (m: int)
    ensures m >= a && m >= b && (m == a || m == b)
  {
    if a >= b then a else b
  }

  function Min(a: int, b: int): (m: int)
    ensures m <= a && m <= b && (m == a || m == b)
  {
    if a <= b then a else b
  }

  /** Truncation toward zero: JavaScript's Math.trunc and Python's int() on a float. */
  function Trunc(x: real): (t: int)
    ensures 0.0 <= x ==> t as real <= x < t as real + 1.0
    ensures x < 0.0 ==> t as real - 1.0 < x <= t as real
  {
    if x >= 0.0 then x.Floor else -((-x).Floor)
  }

  /** JavaScript's Math.round: the nearest integer, halves rounded up. */
  function RoundHalfUp(x: real): (r: int)
    ensures r as real - 0.5 <= x < r as real + 0.5
  {
    (x + 0.5).Floor
  }

  /** Multiplying an inequality by a non-negative factor keeps it. */
  lemma MulMonotone(x: real, y: real, c: real)
    requires x <= y && 0.0 <= c
    ensures x * c <= y * c
  {
    assert y * c - x * c == (y - x) * c;
  }

  /** A product of two non-negative reals is non-negative. */
  lemma MulNonNegative(x: real, c: real)
    requires 0.0 <= x && 0.0 <= c
    ensures 0.0 <= x * c
  {
  }

  /** Row-major addressing: cell (x, y) of a w-by-h grid lies inside the grid. */
  lemma {:induction false} RowMajorBound(x: nat, y: nat, w: nat, h: nat)
    requires x < w && y < h
    ensures y * w + x < w * h
  {
    calc {
      y * w + x;
    <
      y * w + w;
    ==
      (y + 1) * w;
    <= { MulNatMonotone(y + 1, h, w); }
      h * w;
    }
  }

  /** Byte offset of RGBA pixel (x, y) in a w-by-h buffer: the row start
      y * w * 4 plus x * 4, and all four of its bytes inside the buffer. */
  lemma PixelOffset(x: nat, y: nat, w: nat, h: nat)
    requires x < w && y < h
    ensures y * w * 4 + x * 4 == (y * w + x) * 4
    ensures (y * w + x) * 4 + 3 < w * h * 4
  {
    RowMajorBound(x, y, w, h);
  }

  /** One row fewer is one width fewer. */
  lemma MulPred(y: int, w: int)
    ensures (y - 1) * w == y * w - w
    ensures w * (y - 1) == w * y - w
  {
  }

  lemma MulNatMonotone(a: nat, b: nat, c: nat)
    requires a <= b
    ensures a * c <= b * c
  {
    assert b * c - a * c == (b - a) * c;
  }

  /** The output height both transcoders derive from a source image of
      srcW-by-srcH pixels rendered at `width` columns:
      max(1, trunc(width * (srcH / srcW) * 0.55)). The 0.55 factor corrects
      for glyph cells being taller than wide. Stated over integers: h is the
      whole part of 11 * width * srcH / (20 * srcW), but never below 1. */
  function AspectHeight(width: int, srcW: int, srcH: int): (h: int)
    requires srcW > 0
    ensures h >= 1
    ensures h > 1 ==> h * (20 * srcW) <= 11 * width * srcH < (h + 1) * (20 * srcW)
    ensures h == 1 ==> 11 * width * srcH < 2 * (20 * srcW)
  {
    var aspect := srcH as real / srcW as real;
    var scaled := width as real * aspect * 0.55;
    var t := Trunc(scaled);
    ScaledIsRatio(width, srcW, srcH);
    TruncBracket(scaled, 11 * width * srcH, 20 * srcW);
    if t >= 1 then t else 1
  }

  /** width * (srcH / srcW) * 0.55 is exactly (11 * width * srcH) / (20 * srcW). */
  lemma ScaledIsRatio(width: int, srcW: int, srcH: int)
    requires srcW > 0
    ensures width as real * (srcH as real / srcW as real) * 0.55 * (20 * srcW) as real
            == (11 * width * srcH) as real
  {
    var q := srcH as real / srcW as real;
    assert q * srcW as real == srcH as real;
    calc {
      width as real * q * 0.55 * (20 * srcW) as real;
    ==
      11.0 * width as real * (q * srcW as real);
    ==
      (11 * width * srcH) as real;
    }
  }

  /** Truncating x, where x * d is the integer p, brackets p between multiples of d. */
  lemma TruncBracket(x: real, p: int, d: int)
    requires d > 0 && x * d as real == p as real
    ensures Trunc(x) >= 1 ==> Trunc(x) * d <= p < (Trunc(x) + 1) * d
    ensures Trunc(x) <= 1 ==> p < 2 * d
  {
    var t := Trunc(x);
    if t >= 1 {
      FloorBracket(x, p, d);
    }
    if t <= 1 {
      assert x < 2.0;
      MulStrict(x, 2.0, d as real);
      var k := CastMul(2, d);
      CastLess(p, k);
    }
  }

  /** Flooring x where x * d is the integer p brackets p between multiples of d. */
  lemma FloorBracket(x: real, p: int, d: int)
    requires d > 0 && 0.0 <= x && x * d as real == p as real
    ensures x.Floor * d <= p < (x.Floor + 1) * d
  {
    var t := x.Floor;
    var u := t + 1;
    MulMonotone(t as real, x, d as real);
    MulStrict(x, u as real, d as real);
    var lo := CastMul(t, d);
    var hi := CastMul(u, d);
    CastLess(p, hi);
  }

  lemma MulStrict(x: real, y: real, c: real)
    requires x < y && 0.0 < c
    ensures x * c < y * c
  {
    assert y * c - x * c == (y - x) * c;
  }

  /** Names an integer product together with its image among the reals. */
  lemma CastMul(a: int, b: int) returns (k: int)
    ensures k == a * b && k as real == a as real * b as real
  {
    k := a * b;
  }

  lemma CastLess(a: int, b: int)
    requires a as real < b as real
    ensures a < b
  {
  }
}
