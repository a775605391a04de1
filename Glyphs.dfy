/** The glyph ramp both transcoders share, densest glyph first. */
module Glyphs {

  /** Index 0 carries the most ink (darkest), index 9 the least (a space). */
  const ASCII_CHARS: string := "@%#*+=-:. "

  /** The largest ramp index, len(ASCII_CHARS) - 1. */
  const SCALE: int := |ASCII_CHARS| - 1

  /** The ramp has ten distinct glyphs, from '@' to ' ', and no line break. */
  lemma RampShape()
    ensures |ASCII_CHARS| == 10 && SCALE == 9
    ensures ASCII_CHARS[0] == '@' && ASCII_CHARS[SCALE] == ' '
    ensures '\n' !in ASCII_CHARS
    ensures forall i, j :: 0 <= i < j < |ASCII_CHARS| ==> ASCII_CHARS[i] != ASCII_CHARS[j]
  {
  }
}
