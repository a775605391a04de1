/** The browser transcoder (ascii-core.js): an RGBA raster to newline-joined
    rows of ramp glyphs, with BT.709 luma composited over white and
    round-to-nearest quantization. */
module AsciiCore {
  import opened Numeric
  import opened Glyphs
  import opened Lines

  /** A JavaScript number as clampInt sees it: finite, or one of the three
      non-finite values. */
  datatype JsNumber = Finite(value: real) | NaN | PositiveInfinity | NegativeInfinity

  /** What canvas getImageData yields: width, height and flat RGBA bytes, row-major. */
  datatype ImageData = ImageData(width: nat, height: nat, data: seq<Byte>)

  /** The output raster size: character columns and rows. */
  datatype TargetSize = TargetSize(w: int, h: int)

  /** The buffer holds exactly four channel bytes per pixel. */
  predicate WellFormed(img: ImageData)
  {
    |img.data| == img.width * img.height * 4
  }

  /** clampInt: truncate toward zero (a non-finite value becomes lo first),
      then clamp into [lo, hi]. */
  function ClampInt(value: JsNumber, lo: int, hi: int): (r: int)
    ensures r <= hi
    ensures lo <= hi ==> lo <= r
    ensures value.Finite? && lo <= Trunc(value.value) <= hi ==> r == Trunc(value.value)
    ensures value.Finite? && hi < Trunc(value.value) ==> r == hi
    ensures lo <= hi && value.Finite? && Trunc(value.value) < lo ==> r == lo
    ensures lo <= hi && !value.Finite? ==> r == lo
    ensures hi < lo ==> r == hi
  {
    var n := if value.Finite? then Trunc(value.value) else lo;
    Min(hi, Max(lo, n))
  }

  /** Relative luminance with the weights of ITU-R BT.709 (0.2126, 0.7152, 0.0722). */
  function Bt709(r: Byte, g: Byte, b: Byte): (y: real)
    ensures 0.0 <= y <= 255.0
  {
    0.2126 * r as real + 0.7152 * g as real + 0.0722 * b as real
  }

  /** rgbaToLuma: the pixel's BT.709 luma seen over an opaque white backdrop
      (Porter-Duff "over"): opaque pixels show their own luma, transparent
      ones the white, and compositing never darkens a pixel. */
  function RgbaToLuma(r: Byte, g: Byte, b: Byte, a: Byte): (l: real)
    ensures Bt709(r, g, b) <= l <= 255.0
    ensures a == 255 ==> l == Bt709(r, g, b)
    ensures a == 0 ==> l == 255.0
  {
    var alpha := a as real / 255.0;
    var lum := Bt709(r, g, b);
    OverWhiteUpper(lum, alpha);
    OverWhiteLower(lum, alpha);
    OverWhite(lum, alpha)
  }

  /** A luma lum with opacity alpha composited over opaque white (255): a
      fully opaque pixel shows its own luma, a fully transparent one the white. */
  function OverWhite(lum: real, alpha: real): (l: real)
    ensures alpha == 1.0 ==> l == lum
    ensures alpha == 0.0 ==> l == 255.0
  {
    lum * alpha + 255.0 * (1.0 - alpha)
  }

  /** Over white, a luma of at most 255 stays at most 255. */
  lemma OverWhiteUpper(lum: real, alpha: real)
    requires lum <= 255.0 && 0.0 <= alpha
    ensures OverWhite(lum, alpha) <= 255.0
  {
    MulMonotone(lum, 255.0, alpha);
  }

  /** Over white, a luma of at most 255 can only lighten. */
  lemma OverWhiteLower(lum: real, alpha: real)
    requires lum <= 255.0 && alpha <= 1.0
    ensures lum <= OverWhite(lum, alpha)
  {
    MulMonotone(alpha, 1.0, 255.0 - lum);
    assert OverWhite(lum, alpha) == lum * alpha + 255.0 * (1.0 - alpha);
  }

  /** Over white, with the opacity fixed, a larger luma stays larger. */
  lemma OverWhiteMonotone(lum1: real, lum2: real, alpha: real)
    requires lum1 <= lum2 && 0.0 <= alpha
    ensures OverWhite(lum1, alpha) <= OverWhite(lum2, alpha)
  {
    var d := lum2 - lum1;
    MulNonNegative(d, alpha);
    assert lum2 * alpha - lum1 * alpha == d * alpha;
  }

  /** Math.round((luma / 255) * scale): the ramp index nearest to the luma's
      position on the ramp. Over [0, 255] it is always a valid index, and it
      is k exactly when the luma is within half a step of k * 255 / 9, the
      upper half-way point going up. */
  function Quantize(luma: real): (idx: int)
    ensures 0.0 <= luma <= 255.0 ==> 0 <= idx <= SCALE
    ensures (2 * idx - 1) as real * 255.0 <= 18.0 * luma < (2 * idx + 1) as real * 255.0
  {
    RoundHalfUp((luma / 255.0) * SCALE as real)
  }

  /** The glyph a single RGBA pixel becomes. */
  function Glyph(r: Byte, g: Byte, b: Byte, a: Byte): (c: char)
    ensures c in ASCII_CHARS
  {
    ASCII_CHARS[Quantize(RgbaToLuma(r, g, b, a))]
  }

  /** The glyph of the pixel at column x, row y: it reads the four bytes at
      offset (y * width + x) * 4 and nothing else. */
  function PixelGlyph(img: ImageData, x: nat, y: nat): (c: char)
    requires WellFormed(img) && x < img.width && y < img.height
    ensures c in ASCII_CHARS
  {
    PixelOffset(x, y, img.width, img.height);
    var i := (y * img.width + x) * 4;
    Glyph(img.data[i], img.data[i + 1], img.data[i + 2], img.data[i + 3])
  }

  /** Two rasters of the same size that agree on the four bytes of pixel
      (x, y) give it the same glyph, whatever their other bytes. */
  lemma PixelGlyphLocal(img1: ImageData, img2: ImageData, x: nat, y: nat)
    requires WellFormed(img1) && WellFormed(img2)
    requires img1.width == img2.width && img1.height == img2.height
    requires x < img1.width && y < img1.height
    requires var i := (y * img1.width + x) * 4;
      i + 3 < |img1.data| &&
      img1.data[i..i + 4] == img2.data[i..i + 4]
    ensures PixelGlyph(img1, x, y) == PixelGlyph(img2, x, y)
  {
    var i := (y * img1.width + x) * 4;
    assert img1.data[i..i + 4][3] == img2.data[i..i + 4][3];
    assert img1.data[i..i + 4][2] == img2.data[i..i + 4][2];
    assert img1.data[i..i + 4][1] == img2.data[i..i + 4][1];
    assert img1.data[i..i + 4][0] == img2.data[i..i + 4][0];
  }

  /** Row y of the rendering, left to right. */
  function Row(img: ImageData, y: nat): (line: string)
    requires WellFormed(img) && y < img.height
    ensures |line| == img.width
    ensures '\n' !in line
  {
    RampShape();
    seq(img.width, x requires 0 <= x < img.width => PixelGlyph(img, x, y))
  }

  /** All rows of the rendering, top to bottom. */
  function Rows(img: ImageData): (lines: seq<string>)
    requires WellFormed(img)
    ensures |lines| == img.height
    ensures forall y :: 0 <= y < |lines| ==> |lines[y]| == img.width && '\n' !in lines[y]
  {
    seq(img.height, y requires 0 <= y < img.height => Row(img, y))
  }

  /** The text imageDataToAscii promises: the rows joined by single newlines.
      Splitting it on "\n" gives back exactly those rows (for a raster at least
      one row tall): no trailing newline, no missing or extra line. */
  function Render(img: ImageData): (s: string)
    requires WellFormed(img)
    ensures img.height == 0 ==> s == ""
    ensures img.height >= 1 ==> Split(s, '\n') == Rows(img)
  {
    var lines := Rows(img);
    if img.height >= 1 then
      SplitJoin(lines, '\n');
      Join(lines, '\n')
    else
      Join(lines, '\n')
  }

  /** imageDataToAscii: walks the raster row by row, growing each line one
      glyph at a time, and joins the finished lines with "\n". */
  method ImageDataToAscii(img: ImageData) returns (s: string)
    requires WellFormed(img)
    ensures s == Render(img)
    ensures img.height == 0 ==> s == ""
    ensures img.height >= 1 ==> |Split(s, '\n')| == img.height
    ensures img.height >= 1 ==> forall y :: 0 <= y < img.height ==>
      |Split(s, '\n')[y]| == img.width &&
      forall x :: 0 <= x < img.width ==> Split(s, '\n')[y][x] == PixelGlyph(img, x, y)
  {
    var w := img.width;
    var h := img.height;
    var data := img.data;
    var ramp := ASCII_CHARS;
    var scale := |ramp| - 1;
    var lines: seq<string> := [];
    for y := 0 to h
      invariant lines == Rows(img)[..y]
    {
      var line := "";
      var rowStart := y * w * 4;
      for x := 0 to w
        invariant line == Row(img, y)[..x]
      {
        var i := rowStart + x * 4;
        PixelOffset(x, y, w, h);
        var luma := RgbaToLuma(data[i], data[i + 1], data[i + 2], data[i + 3]);
        var idx := RoundHalfUp((luma / 255.0) * scale as real);
        line := line + [ramp[idx]];
      }
      assert line == Row(img, y);
      assert Rows(img)[..y + 1] == Rows(img)[..y] + [Row(img, y)];
      lines := lines + [line];
    }
    assert lines == Rows(img);
    s := Join(lines, '\n');
  }

  /** computeTargetSize: the requested width clamped into [20, 200] (a
      non-finite request gives 20), and the aspect-corrected height. */
  function ComputeTargetSize(imgWidth: int, imgHeight: int, targetAsciiWidth: JsNumber): (size: TargetSize)
    requires imgWidth > 0
    ensures 20 <= size.w <= 200 && size.h >= 1
    ensures targetAsciiWidth.Finite? && 20 <= Trunc(targetAsciiWidth.value) <= 200 ==>
      size.w == Trunc(targetAsciiWidth.value)
    ensures targetAsciiWidth.Finite? && Trunc(targetAsciiWidth.value) < 20 ==> size.w == 20
    ensures targetAsciiWidth.Finite? && Trunc(targetAsciiWidth.value) > 200 ==> size.w == 200
    ensures !targetAsciiWidth.Finite? ==> size.w == 20
    ensures size.h == AspectHeight(size.w, imgWidth, imgHeight)
  {
    var w := ClampInt(targetAsciiWidth, 20, 200);
    TargetSize(w, AspectHeight(w, imgWidth, imgHeight))
  }

  /** The size test: a 100 x 100 image asked for at 80 columns gets 80 x 44. */
  lemma TargetSizeExample()
    ensures ComputeTargetSize(100, 100, Finite(80.0)) == TargetSize(80, 44)
  {
    var size := ComputeTargetSize(100, 100, Finite(80.0));
    assert size.w == 80;
    assert 11 * 80 * 100 == 44 * (20 * 100);
  }

  /** A brighter composited luma never selects a denser glyph. */
  lemma QuantizeMonotone(l1: real, l2: real)
    requires l1 <= l2
    ensures Quantize(l1) <= Quantize(l2)
  {
  }

  /** Raising any colour channel, at a fixed alpha, never darkens the
      composited luma. */
  lemma LumaMonotone(r1: Byte, g1: Byte, b1: Byte, r2: Byte, g2: Byte, b2: Byte, a: Byte)
    requires r1 <= r2 && g1 <= g2 && b1 <= b2
    ensures RgbaToLuma(r1, g1, b1, a) <= RgbaToLuma(r2, g2, b2, a)
  {
    assert Bt709(r1, g1, b1) <= Bt709(r2, g2, b2);
    OverWhiteMonotone(Bt709(r1, g1, b1), Bt709(r2, g2, b2), a as real / 255.0);
  }

  /** Raising any colour channel, at a fixed alpha, never lowers the ramp index. */
  lemma GlyphIndexMonotone(r1: Byte, g1: Byte, b1: Byte, r2: Byte, g2: Byte, b2: Byte, a: Byte)
    requires r1 <= r2 && g1 <= g2 && b1 <= b2
    ensures Quantize(RgbaToLuma(r1, g1, b1, a)) <= Quantize(RgbaToLuma(r2, g2, b2, a))
  {
    LumaMonotone(r1, g1, b1, r2, g2, b2, a);
    QuantizeMonotone(RgbaToLuma(r1, g1, b1, a), RgbaToLuma(r2, g2, b2, a));
  }

  /** Opaque black is '@' (index 0); opaque white and any fully transparent
      pixel are ' ' (index 9). */
  lemma GlyphExtremes(r: Byte, g: Byte, b: Byte)
    ensures Quantize(RgbaToLuma(0, 0, 0, 255)) == 0 && Glyph(0, 0, 0, 255) == '@'
    ensures Quantize(RgbaToLuma(255, 255, 255, 255)) == SCALE && Glyph(255, 255, 255, 255) == ' '
    ensures Quantize(RgbaToLuma(r, g, b, 0)) == SCALE && Glyph(r, g, b, 0) == ' '
  {
    assert Bt709(255, 255, 255) == 255.0;
  }

  /** The raster of the 2 x 2 transcoding test: black, white / red, blue, all opaque. */
  function TwoByTwo(): (img: ImageData)
    ensures WellFormed(img) && img.width == 2 && img.height == 2
  {
    ImageData(2, 2, [0, 0, 0, 255, 255, 255, 255, 255, 255, 0, 0, 255, 0, 0, 255, 255])
  }

  /** The 2 x 2 transcoding test renders as two lines of two glyphs. */
  lemma TwoByTwoExample()
    ensures Render(TwoByTwo()) == "@ \n#%"
  {
    var img := TwoByTwo();
    TwoByTwoRows();
    assert Render(img) == Join(["@ ", "#%"], '\n');
  }

  /** Row by row: black, white give "@ "; red, blue give "#%". */
  lemma TwoByTwoRows()
    ensures Rows(TwoByTwo()) == ["@ ", "#%"]
  {
    TwoByTwoTop();
    TwoByTwoBottom();
  }

  lemma TwoByTwoTop()
    ensures Row(TwoByTwo(), 0) == "@ "
  {
    var img := TwoByTwo();
    GlyphExtremes(0, 0, 0);
    assert PixelGlyph(img, 0, 0) == '@';
    assert PixelGlyph(img, 1, 0) == ' ';
  }

  lemma TwoByTwoBottom()
    ensures Row(TwoByTwo(), 1) == "#%"
  {
    var img := TwoByTwo();
    assert PixelGlyph(img, 0, 1) == '#' by {
      assert Quantize(RgbaToLuma(255, 0, 0, 255)) == 2;
    }
    assert PixelGlyph(img, 1, 1) == '%' by {
      assert Quantize(RgbaToLuma(0, 0, 255, 255)) == 1;
    }
  }
}
