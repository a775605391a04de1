# artscii transcoder, modelled in Dafny

artscii turns a picture into ASCII art. It has two independent transcoders:

- `ascii-core.js`, the browser one. It reads an RGBA raster (four bytes per
  pixel, row-major) and computes each pixel's BT.709 luma, composited over a
  white background. It rounds that luma to the nearest of the ten glyphs of the
  ramp `"@%#*+=-:. "` and joins the rows with `"\n"`. It also picks the output
  size: the requested width clamped to [20, 200], and a height corrected for
  the aspect ratio by the factor 0.55.
- `ascii.py`, the command-line one. It takes PIL's greyscale pixels, maps each
  grey level `p` to glyph `p * 9 // 255` (floor division), cuts the flat string
  into lines of the image's width and joins them with `"\n"`.

The model uses exact arithmetic: unbounded integers and exact reals. The
BT.709 weights then sum to exactly 1. `Math.round` is `floor(x + 1/2)`.
`Math.trunc` and Python's `int()` truncate toward zero, written out in
`Numeric.Trunc`.

Files:

- `Numeric.dfy`: the numeric primitives (`Byte`, `Trunc`, `RoundHalfUp`). It
  also holds the aspect-corrected height that both transcoders compute with the
  same formula, and the row-major offset facts.
- `Glyphs.dfy`: the ramp `ASCII_CHARS`, shared by both transcoders.
- `Lines.dfy`: joining and splitting on a one-character separator, with their
  round trips.
- `AsciiCore.dfy`: `ascii-core.js`. `imageDataToAscii` is an imperative method
  with nested loops. It is proved equal to the specification function `Render`,
  so its result splits into `height` lines of `width` glyphs.
- `AsciiCli.dfy`: `ascii.py`, all pure functions and lemmas.

All the functions are pure: calling one twice on the same input gives the same
result, and the transcoder keeps no state between calls.

## Model

| member | source | states |
|---|---|---|
| Numeric.Trunc | ascii-core.js:5 | the integer part toward zero: t <= x < t + 1 for x >= 0 and t - 1 < x <= t for x < 0 (Math.trunc; also Python int() at ascii.py:21) |
| Numeric.RoundHalfUp | ascii-core.js:27 | Math.round gives the integer r with r - 1/2 <= x < r + 1/2, so halves round up |
| Numeric.AspectHeight | ascii-core.js:37-38 | max(1, trunc(width * srcH / srcW * 0.55)) is at least 1; above 1 it is the h with 20·h·srcW <= 11·width·srcH < 20·(h+1)·srcW; it is 1 exactly when 11·width·srcH < 40·srcW |
| Numeric.PixelOffset | ascii-core.js:23-25 | rowStart + x*4 = (y*w + x)*4, and all four bytes of pixel (x, y) lie inside a w·h·4 buffer |
| Numeric.RowMajorBound | ascii-core.js:21-25 | a cell (x, y) of a w-by-h grid has a row-major index y*w + x below w*h |
| Glyphs.RampShape | ascii-core.js:1 | the ramp has 10 distinct glyphs, '@' first and ' ' last, with no newline among them (also ascii.py:7) |
| Lines.Join | ascii-core.js:32 | Array.join and str.join on one character: no lines give ""; otherwise the text is the lines' total length plus one separator between each two neighbours (its round trips are Lines.SplitJoin and Lines.JoinSplit) |
| Lines.Split | ascii-core.test.mjs:20-21 | String.split on one character: never empty, no piece holds the separator, one more piece than separators, and the pieces' total length is the string's length less its separators; their contents are fixed by Lines.JoinSplit |
| Lines.SplitJoin | ascii-core.js:32 | splitting a join of separator-free lines gives back exactly those lines |
| Lines.JoinSplit | ascii-core.test.mjs:20 | joining the pieces of a split gives back the string |
| Lines.StripJoin | ascii.py:37 | removing the separators from a join lays the lines end to end |
| AsciiCore.ClampInt | ascii-core.js:3-6 | the result is at most max, and at least min when min <= max; an in-range trunc(value) comes back unchanged; below min gives min, above max gives max; any non-finite value gives min; when min > max the result is always max |
| AsciiCore.Bt709 | ascii-core.js:10 | the BT.709 luma of byte channels lies in [0, 255] |
| AsciiCore.RgbaToLuma | ascii-core.js:8-12 | the composited luma lies between the pixel's own BT.709 luma and 255; alpha 255 gives exactly the BT.709 luma, alpha 0 gives exactly 255 |
| AsciiCore.OverWhite | ascii-core.js:11 | lum * alpha + 255 * (1 - alpha) shows the pixel's own luma at alpha 1 and pure white at alpha 0; its bounds and order are OverWhiteUpper, OverWhiteLower and OverWhiteMonotone |
| AsciiCore.OverWhiteUpper | ascii-core.js:11 | compositing a luma of at most 255 over white never exceeds 255 |
| AsciiCore.OverWhiteLower | ascii-core.js:11 | compositing over white never darkens a luma of at most 255 |
| AsciiCore.OverWhiteMonotone | ascii-core.js:11 | at a fixed opacity, compositing over white keeps the order of lumas |
| AsciiCore.Quantize | ascii-core.js:19-27 | round(luma / 255 * 9) is a valid ramp index for luma in [0, 255]; it is k exactly when 255·(2k-1) <= 18·luma < 255·(2k+1) |
| AsciiCore.Glyph | ascii-core.js:26-28 | every pixel's glyph is a character of ASCII_CHARS |
| AsciiCore.PixelGlyph | ascii-core.js:23-28 | the glyph of pixel (x, y), read from the four bytes at (y*w + x)*4, is a ramp character |
| AsciiCore.PixelGlyphLocal | ascii-core.js:25-26 | a pixel's glyph depends only on its own four bytes |
| AsciiCore.Row | ascii-core.js:22-29 | row y of the rendering has exactly width glyphs and no newline among them (glyph x is PixelGlyph(img, x, y) by definition) |
| AsciiCore.Rows | ascii-core.js:20-31 | the rendering has exactly height rows, each width glyphs long and free of newlines |
| AsciiCore.Render | ascii-core.js:32 | the rows joined by "\n": zero rows give "", and otherwise splitting on "\n" gives back exactly the rows, so there is no trailing newline and no missing or extra line |
| AsciiCore.ImageDataToAscii | ascii-core.js:14-33 | the nested loops return Render(img). Zero rows give "". Otherwise splitting on "\n" gives exactly height lines of exactly width glyphs, glyph x of line y being PixelGlyph(img, x, y) |
| AsciiCore.ComputeTargetSize | ascii-core.js:35-40 | w is in [20, 200]: trunc(request) when that is in range, 20 when it is below 20, 200 when it is above 200, and 20 when the request is non-finite; h >= 1 is the aspect-corrected height for w |
| AsciiCore.TargetSizeExample | ascii-core.test.mjs:5-7 | a 100 x 100 image requested at 80 columns gets {w: 80, h: 44} |
| AsciiCore.QuantizeMonotone | ascii-core.js:27 | a larger luma never gives a smaller ramp index |
| AsciiCore.LumaMonotone | ascii-core.js:9-11 | at a fixed alpha, raising any of r, g, b never lowers the composited luma |
| AsciiCore.GlyphIndexMonotone | ascii-core.js:26-27 | at a fixed alpha, raising any of r, g, b never lowers the ramp index |
| AsciiCore.GlyphExtremes | ascii-core.js:26-28 | opaque black is index 0 ('@'); opaque white and every fully transparent pixel are index 9 (' ') |
| AsciiCore.TwoByTwoExample | ascii-core.test.mjs:10-22 | the test's 2 x 2 raster TwoByTwo() (black, white / red, blue) renders as "@ \n#%": 2 lines of 2 glyphs |
| AsciiCli.ResizeImage | ascii.py:18-22 | the new width is the requested width and the new height is the aspect-corrected height, at least 1 |
| AsciiCli.Index | ascii.py:27-28 | p * 9 // 255 is in [0, 9] and is the k with 255·k <= 9·p < 255·(k+1) |
| AsciiCli.PixelsToAscii | ascii.py:25-28 | one glyph per pixel, in order: character i is ASCII_CHARS[p_i * 9 // 255] |
| AsciiCli.IndexExtremes | ascii.py:28 | grey 0 maps to '@' and 255 to ' '; index 9 is reached only by 255, and index 0 exactly by the greys below 29 |
| AsciiCli.IndexMonotone | ascii.py:28 | p <= q implies index(p) <= index(q) |
| AsciiCli.Chunks | ascii.py:36 | the list comprehension gives no lines exactly for ""; its slices, lengths and round trip are ChunkAt and ChunksShape |
| AsciiCli.ChunkAt | ascii.py:36 | chunk i is the slice s[i*width : min(i*width + width, len(s))] for every start the range visits |
| AsciiCli.ChunksShape | ascii.py:36 | the chunks laid end to end give back s. Every chunk but the last has length width, and the last has length 1 to width. There are ceil(len(s) / width) chunks, and none for "" |
| AsciiCli.ChunksOfGrid | ascii.py:36 | a string of width·height characters cuts into exactly height lines of width characters |
| AsciiCli.GridCell | ascii.py:36 | character x of line y of such a grid is character y*width + x of the string |
| AsciiCli.ConvertCell | ascii.py:35-36 | character x of chunk y is the glyph of pixel y*width + x |
| AsciiCli.Convert | ascii.py:35-37 | the chunks of pixels_to_ascii's string joined by "\n" are "" exactly when there are no pixels; the grid shape and contents are ConvertShape and ConvertStripsToPixels |
| AsciiCli.ConvertShape | ascii.py:35-37 | for width·height pixels, convert's text splits on "\n" into height lines of width glyphs, glyph x of line y being that of pixel y*width + x; no pixels give "" |
| AsciiCli.ConvertStripsToPixels | ascii.py:35-37 | removing the "\n" separators from convert's text gives back pixels_to_ascii's string |

## Left out

- main.js is not part of this model. It holds the DOM, events, object URLs,
  canvas drawing and `getImageData`, promises, the clipboard and the
  save-as-image rendering; all of it is presentation and I/O. Its file check
  `isValidImageFile` gates the UI and is not part of the transform.
- In ascii.py, `parse_args` and `main` are left out, including the file check,
  `print` and the file output. So are the PIL calls `Image.open`,
  `.convert("L")`, `.resize` and `.getdata`: decoding, greyscale conversion and
  resampling belong to the library. Their results come in as inputs: the grey
  pixel sequence and the resized width.
- ResizeImage: it gives the size passed to PIL's `resize`, not the resampled
  image. PIL's refusal of a width below 1 is not modelled.
- Convert: requires a width of at least 1. A resized PIL image always has one,
  and `range` with step 0 would raise.
- IEEE-754 rounding is left out: the luma, the 0.55 factor and the aspect ratio
  are exact reals. Near a glyph boundary or an integer height, floating point
  can land one step away from the exact value.
- The `asciiWidth` argument of `imageDataToAscii` is never read, so it is
  dropped.
- ImageDataToAscii: requires a buffer of exactly width·height·4 bytes. A
  shorter buffer would read `undefined` in JavaScript.
- AspectHeight, ComputeTargetSize and ResizeImage require a source width above
  0. The code divides by it, so a width of 0 has no defined height.
- ClampInt: min and max are integers here, though JavaScript accepts any
  numbers. Non-number values fall into the non-finite case, as they do for
  `Number.isFinite`.
- RgbaToLuma: not modelled for channel values outside the integers 0 to 255.
  The JavaScript function would accept any numbers, but the transcoder only
  feeds it bytes from a `Uint8ClampedArray`.
- The model does not relate the two transcoders. They quantize differently: JS
  rounds to nearest, Python rounds down. Their grey values also differ: BT.709
  composited over white, against PIL's own greyscale.
