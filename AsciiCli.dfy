/** The command-line transcoder (ascii.py): greyscale pixels to ramp glyphs by
    integer floor division, cut into lines of the image's width. Decoding,
    greyscale conversion and resampling are done by the imaging library and
    enter here only as their results: the pixel sequence and the width. */
module AsciiCli {
  import opened Numeric
  import opened Glyphs
  import opened Lines

  /** resize_image's target size for an image of `size` pixels asked for at
      `width` columns: the width unchanged and the aspect-corrected height. */
  function ResizeImage(size: (int, int), width: int): (newSize: (int, int))
    requires size.0 > 0
    ensures newSize.0 == width && newSize.1 >= 1
    ensures newSize.1 == AspectHeight(width, size.0, size.1)
  {
    var (w, h) := size;
    (width, AspectHeight(width, w, h))
  }

  /** p * scale // 255: the ramp index of grey level p, rounded down. It is
      k exactly when 255 * k <= 9 * p < 255 * (k + 1). */
  function Index(p: Byte): (k: int)
    ensures 0 <= k <= SCALE
    ensures 255 * k <= SCALE * p < 255 * (k + 1)
  {
    p * SCALE / 255
  }

  /** pixels_to_ascii: one ramp glyph per pixel, in order. */
  function PixelsToAscii(pixels: seq<Byte>): (s: string)
    ensures |s| == |pixels|
    ensures forall i :: 0 <= i < |pixels| ==> s[i] == ASCII_CHARS[Index(pixels[i])]
    decreases |pixels|
  {
    if |pixels| == 0 then ""
    else [ASCII_CHARS[Index(pixels[0])]] + PixelsToAscii(pixels[1..])
  }

  /** [s[i : i + width] for i in range(0, len(s), width)]: consecutive slices
      of width characters, the last one possibly shorter. */
  function Chunks(s: string, width: nat): (lines: seq<string>)
    requires width > 0
    ensures |lines| == 0 <==> |s| == 0
    decreases |s|
  {
    if |s| == 0 then []
    else
      var n := Min(width, |s|);
      [s[..n]] + Chunks(s[n..], width)
  }

  /** convert's result for the resized image's pixels and width: the glyph
      lines joined by "\n", empty exactly when there are no pixels. */
  function Convert(pixels: seq<Byte>, width: nat): (text: string)
    requires width > 0
    ensures |pixels| == 0 <==> text == ""
  {
    Join(Chunks(PixelsToAscii(pixels), width), '\n')
  }

  /** The darkest grey is '@' and only pure white is ' '. */
  lemma IndexExtremes(p: Byte)
    ensures Index(0) == 0 && ASCII_CHARS[Index(0)] == '@'
    ensures Index(255) == SCALE && ASCII_CHARS[Index(255)] == ' '
    ensures Index(p) == SCALE <==> p == 255
    ensures Index(p) == 0 <==> p < 29
  {
    RampShape();
  }

  /** Floor division by 255 is monotone: a lighter grey never gets a denser glyph. */
  lemma IndexMonotone(p: Byte, q: Byte)
    requires p <= q
    ensures Index(p) <= Index(q)
  {
  }

  /** Chunk i is the slice s[i * width : min(i * width + width, len(s))], for
      every start i * width that range(0, len(s), width) visits. */
  lemma {:induction false} ChunkAt(s: string, width: nat, i: nat)
    requires width > 0
    requires i * width < |s|
    ensures i < |Chunks(s, width)|
    ensures Chunks(s, width)[i] == s[i * width .. Min(i * width + width, |s|)]
    decreases |s|
  {
    var n := Min(width, |s|);
    ChunksCons(s, width);
    var c := Chunks(s, width);
    var rest := Chunks(s[n..], width);
    if i == 0 {
      assert i * width == 0;
      assert c[0] == s[..n];
    } else {
      var start := i * width;
      var prev := (i - 1) * width;
      StartBound(i, width);
      assert prev + width == start;
      assert n == width;
      ChunkAt(s[n..], width, i - 1);
      assert c[i] == rest[i - 1];
      assert rest[i - 1] == s[n..][prev .. Min(prev + width, |s| - n)];
      SliceOfSuffix(s, width, prev, start);
      assert c[i] == s[start .. Min(start + width, |s|)];
    }
  }

  /** A start i * width past the first is one width past the previous start. */
  lemma StartBound(i: nat, width: nat)
    requires i > 0
    ensures 0 <= (i - 1) * width && (i - 1) * width + width == i * width
  {
    MulPred(i, width);
  }

  /** Taking a slice of s[width..] is taking the slice width further along s. */
  lemma SliceOfSuffix(s: string, width: nat, prev: nat, start: nat)
    requires start == width + prev && start < |s|
    ensures s[width..][prev .. Min(prev + width, |s| - width)]
         == s[start .. Min(start + width, |s|)]
  {
  }

  /** Every chunk but the last is width long; the last is non-empty and at
      most width long; there are ceil(len(s) / width) of them; and laid end to
      end they give back s. */
  lemma {:induction false} ChunksShape(s: string, width: nat)
    requires width > 0
    ensures Concat(Chunks(s, width)) == s
    ensures forall i :: 0 <= i < |Chunks(s, width)| - 1 ==> |Chunks(s, width)[i]| == width
    ensures |s| > 0 ==> 0 < |Chunks(s, width)[|Chunks(s, width)| - 1]| <= width
    ensures |s| > 0 ==> (|Chunks(s, width)| - 1) * width < |s| <= |Chunks(s, width)| * width
    ensures s == [] <==> Chunks(s, width) == []
    decreases |s|
  {
    if |s| > 0 {
      var n := Min(width, |s|);
      var rest := Chunks(s[n..], width);
      ChunksShape(s[n..], width);
      var c := Chunks(s, width);
      assert c == [s[..n]] + rest;
      assert c[1..] == rest;
      assert s[..n] + s[n..] == s;
      MulPred(|c|, width);
      if rest != [] {
        MulPred(|rest|, width);
        assert |c| - 1 == |rest|;
      }
    }
  }

  /** A string of width * height characters cuts into exactly height lines,
      each width characters long. */
  lemma {:induction false} ChunksOfGrid(s: string, width: nat, height: nat)
    requires width > 0 && |s| == width * height
    ensures |Chunks(s, width)| == height
    ensures forall y :: 0 <= y < height ==> |Chunks(s, width)[y]| == width
    decreases height
  {
    if height > 0 {
      GridRest(width, height);
      var rest := s[width..];
      ChunksOfGrid(rest, width, height - 1);
      ChunksCons(s, width);
      var c := Chunks(s, width);
      var r := Chunks(rest, width);
      forall y | 0 <= y < height
        ensures |c[y]| == width
      {
        if y > 0 {
          assert c[y] == r[y - 1];
        }
      }
    }
  }

  /** One chunk off the front of a non-empty string. */
  lemma ChunksCons(s: string, width: nat)
    requires width > 0 && |s| > 0
    ensures Chunks(s, width) == [s[..Min(width, |s|)]] + Chunks(s[Min(width, |s|)..], width)
  {
  }

  /** A grid at least one row tall holds a full row, and the rest has one row fewer. */
  lemma GridRest(width: nat, height: nat)
    requires height > 0
    ensures width <= width * height
    ensures width * height - width == width * (height - 1)
  {
    MulPred(height, width);
  }

  /** The converted text for a width-by-height image: splitting it on "\n"
      gives height lines of width glyphs, glyph x of line y being the one for
      pixel y * width + x. An image with no pixels converts to "". */
  lemma ConvertShape(pixels: seq<Byte>, width: nat, height: nat)
    requires width > 0 && |pixels| == width * height
    ensures height == 0 ==> Convert(pixels, width) == ""
    ensures height >= 1 ==> |Split(Convert(pixels, width), '\n')| == height
    ensures height >= 1 ==> forall y, x :: 0 <= y < height && 0 <= x < width ==>
      CellIs(Split(Convert(pixels, width), '\n'), pixels, width, x, y)
  {
    RampShape();
    var s := PixelsToAscii(pixels);
    var lines := Chunks(s, width);
    if height == 0 {
      assert s == [];
    } else {
      ChunksContained(s, width);
      GridCell(s, width, height, 0, 0);
      SplitJoin(lines, '\n');
      forall y, x | 0 <= y < height && 0 <= x < width
        ensures CellIs(lines, pixels, width, x, y)
      {
        ConvertCell(pixels, width, height, x, y);
      }
    }
  }

  /** Line y of `lines` is width glyphs long and glyph x of it is the glyph of
      pixel y * width + x. */
  predicate CellIs(lines: seq<string>, pixels: seq<Byte>, width: nat, x: nat, y: nat)
  {
    y < |lines| && y * width + x < |pixels| && |lines[y]| == width && x < width &&
    lines[y][x] == ASCII_CHARS[Index(pixels[y * width + x])]
  }

  /** Glyph x of line y of the chunked glyph string is the glyph of pixel y * width + x. */
  lemma ConvertCell(pixels: seq<Byte>, width: nat, height: nat, x: nat, y: nat)
    requires width > 0 && |pixels| == width * height && x < width && y < height
    ensures y * width + x < |pixels|
    ensures |Chunks(PixelsToAscii(pixels), width)| == height
    ensures |Chunks(PixelsToAscii(pixels), width)[y]| == width
    ensures Chunks(PixelsToAscii(pixels), width)[y][x] == ASCII_CHARS[Index(pixels[y * width + x])]
  {
    var s := PixelsToAscii(pixels);
    GridCell(s, width, height, x, y);
    var k := y * width + x;
    assert s[k] == ASCII_CHARS[Index(pixels[k])];
  }

  /** Glyph x of line y of a width-by-height grid is glyph y * width + x of s. */
  lemma GridCell(s: string, width: nat, height: nat, x: nat, y: nat)
    requires width > 0 && |s| == width * height && x < width && y < height
    ensures y * width + x < |s|
    ensures |Chunks(s, width)| == height && |Chunks(s, width)[y]| == width
    ensures Chunks(s, width)[y][x] == s[y * width + x]
  {
    RowMajorBound(x, y, width, height);
    ChunksOfGrid(s, width, height);
    var start := y * width;
    ChunkAt(s, width, y);
    var line := Chunks(s, width)[y];
    assert line == s[start .. Min(start + width, |s|)];
    assert line[x] == s[start + x];
  }

  /** Removing the "\n" separators from the converted text gives back the
      flat glyph string, one glyph per pixel. */
  lemma ConvertStripsToPixels(pixels: seq<Byte>, width: nat)
    requires width > 0
    ensures Strip(Convert(pixels, width), '\n') == PixelsToAscii(pixels)
  {
    RampShape();
    var s := PixelsToAscii(pixels);
    var lines := Chunks(s, width);
    ChunksShape(s, width);
    ChunksContained(s, width);
    StripJoin(lines, '\n');
  }

  /** Every chunk is a slice of s, so carries only glyphs of s. */
  lemma {:induction false} ChunksContained(s: string, width: nat)
    requires width > 0 && '\n' !in s
    ensures forall i :: 0 <= i < |Chunks(s, width)| ==> '\n' !in Chunks(s, width)[i]
    decreases |s|
  {
    if |s| > 0 {
      var n := Min(width, |s|);
      ChunksContained(s[n..], width);
      assert forall k :: 0 <= k < n ==> s[..n][k] == s[k];
    }
  }
}
