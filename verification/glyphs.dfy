/**
  Shared vocabulary of the block-art font pipeline: a glyph is a sequence of
  rows of runes, and its unpacked form is a matrix of integer pixels.
  The four runes a well-formed glyph uses are the full block, the upper and
  lower half blocks and the space.
 */
module Glyphs {

  /** One display row of a glyph, as a sequence of decoded runes. */
  type Row = seq<char>

  /** A glyph (or any block of display lines): rows top to bottom. */
  type Glyph = seq<Row>

  /** One row of pixels; the pipeline writes only 0 and 1 but reads any int. */
  type PixelRow = seq<int>

  /** A pixel matrix, two pixel rows per glyph row once unpacked. */
  type Bitmap = seq<PixelRow>

  const Full: char := '\U{2588}'
  const Upper: char := '\U{2580}'
  const Lower: char := '\U{2584}'
  const Space: char := ' '

  /** The four runes a glyph is meant to be drawn from. */
  predicate IsBlockRune(c: char) {
    c == Full || c == Upper || c == Lower || c == Space
  }

  /** Every rune of every row is one of the four block runes. */
  predicate BlockRunesOnly(g: Glyph) {
    forall i, j :: 0 <= i < |g| && 0 <= j < |g[i]| ==> IsBlockRune(g[i][j])
  }

  /** Every pixel is 0 or 1. */
  predicate IsBinary(b: Bitmap) {
    forall i, j :: 0 <= i < |b| && 0 <= j < |b[i]| ==> b[i][j] == 0 || b[i][j] == 1
  }

  /** `n` space runes (Go's strings.Repeat(" ", n)). */
  function Spaces(n: nat): Row {
    seq(n, _ => Space)
  }

  /** `n` zero-width rows (the zero value of a Go string slice of length n). */
  function EmptyRows(n: nat): Glyph {
    seq(n, _ => [])
  }

  function Max(a: int, b: int): int {
    if a >= b then a else b
  }
}
