/**
  The half-block packing converter (scaling.go:7-97): a glyph row stands for
  two pixel rows, and each rune encodes the vertical pixel pair of its column.
 */
module Packing {
  import opened Glyphs

  /** Upper pixel of a rune: on for the full and the upper half block. */
  function TopBit(c: char): int {
    if c == Full || c == Upper then 1 else 0
  }

  /** Lower pixel of a rune: on for the full and the lower half block. */
  function BottomBit(c: char): int {
    if c == Full || c == Lower then 1 else 0
  }

  function TopRow(line: Row): PixelRow {
    seq(|line|, i requires 0 <= i < |line| => TopBit(line[i]))
  }

  function BottomRow(line: Row): PixelRow {
    seq(|line|, i requires 0 <= i < |line| => BottomBit(line[i]))
  }

  /** Pixel row k of a glyph: the top pixels of glyph row k/2 when k is even, its bottom pixels otherwise. */
  function PixelRowOf(g: Glyph, k: int): PixelRow
    requires 0 <= k < 2 * |g|
  {
    if k % 2 == 0 then TopRow(g[k / 2]) else BottomRow(g[k / 2])
  }

  /**
    ansiToExpandedBinary: glyph row i becomes pixel rows 2i and 2i+1, each as
    wide as the row has runes. A zero-width glyph row leaves both pixel rows
    empty, which is what the source's `continue` over nil rows produces.
   */
  function Unpack(g: Glyph): (b: Bitmap)
    ensures |b| == 2 * |g|
    ensures forall k :: 0 <= k < |b| ==> b[k] == PixelRowOf(g, k)
  {
    if |g| == 0 then []
    else
      var rest := Unpack(g[1..]);
      var b := [TopRow(g[0]), BottomRow(g[0])] + rest;
      assert forall k :: 2 <= k < |b| ==> b[k] == rest[k - 2];
      assert forall k :: 2 <= k < |b| ==> PixelRowOf(g[1..], k - 2) == PixelRowOf(g, k);
      b
  }

  /** Unpacking writes only 0 and 1. */
  lemma UnpackIsBinary(g: Glyph)
    ensures IsBinary(Unpack(g))
  {
    var b := Unpack(g);
    forall k, j | 0 <= k < |b| && 0 <= j < |b[k]|
      ensures b[k][j] == 0 || b[k][j] == 1
    {
      assert b[k] == PixelRowOf(g, k);
    }
  }

  /** The rune for a (top, bottom) pixel pair; any pair other than the four binary ones is a space. */
  function Cell(top: int, bottom: int): (c: char)
    ensures IsBlockRune(c)
    ensures c == Full <==> top == 1 && bottom == 1
    ensures c == Upper <==> top == 1 && bottom == 0
    ensures c == Lower <==> top == 0 && bottom == 1
    ensures top in {0, 1} && bottom in {0, 1} ==> TopBit(c) == top && BottomBit(c) == bottom
  {
    if top == 1 && bottom == 1 then Full
    else if top == 1 && bottom == 0 then Upper
    else if top == 0 && bottom == 1 then Lower
    else Space
  }

  /** A pixel read with the source's guard: outside the row it counts as off. */
  function PixelOrOff(row: PixelRow, x: int): int {
    if 0 <= x < |row| then row[x] else 0
  }

  /**
    One output row: as wide as the top pixel row, the bottom row padded with
    off pixels. Each cell of a binary pair unpacks to that pair again, and
    where the bottom row is missing no cell has its lower half set.
   */
  function PackPair(top: PixelRow, bottom: PixelRow): (r: Row)
    ensures |r| == |top|
    ensures forall x :: 0 <= x < |r| ==> IsBlockRune(r[x])
    ensures forall x :: 0 <= x < |r| && top[x] in {0, 1} && PixelOrOff(bottom, x) in {0, 1} ==>
      TopBit(r[x]) == top[x] && BottomBit(r[x]) == PixelOrOff(bottom, x)
    ensures forall x :: |bottom| <= x < |r| ==> BottomBit(r[x]) == 0
  {
    seq(|top|, x requires 0 <= x < |top| => Cell(top[x], PixelOrOff(bottom, x)))
  }

  /**
    expandedBinaryToAnsi: pixel rows are taken in pairs (y, y+1); a missing
    bottom row counts as off, and a pair whose top row has width 0 produces
    no output row at all.
   */
  function Pack(b: Bitmap): (g: Glyph)
    ensures |g| <= (|b| + 1) / 2
    ensures BlockRunesOnly(g)
    decreases |b|
  {
    if |b| == 0 then []
    else
      var bottom := if |b| >= 2 then b[1] else [];
      var rest := if |b| >= 2 then b[2..] else [];
      var tail := Pack(rest);
      if |b[0]| == 0 then tail else [PackPair(b[0], bottom)] + tail
  }

  /** Rune after a trip through the pixel pair: unrecognised runes read as space. */
  function Canon(c: char): char {
    if c == Full || c == Upper || c == Lower then c else Space
  }

  /** `g` with zero-width rows dropped and every unrecognised rune replaced by a space. */
  function Canonical(g: Glyph): (h: Glyph)
    ensures |h| <= |g|
  {
    if |g| == 0 then []
    else if |g[0]| == 0 then Canonical(g[1..])
    else [seq(|g[0]|, j requires 0 <= j < |g[0]| => Canon(g[0][j]))] + Canonical(g[1..])
  }

  /** The cell table: unpacking a rune and packing its pixel pair again yields its canonical form. */
  lemma CellOfBits(c: char)
    ensures TopBit(c) in {0, 1} && BottomBit(c) in {0, 1}
    ensures Cell(TopBit(c), BottomBit(c)) == Canon(c)
    ensures c == Full <==> (TopBit(c), BottomBit(c)) == (1, 1)
    ensures c == Upper <==> (TopBit(c), BottomBit(c)) == (1, 0)
    ensures c == Lower <==> (TopBit(c), BottomBit(c)) == (0, 1)
  {
  }

  /** Packing then unpacking a binary pixel pair gives back the pair. */
  lemma BitsOfCell(top: int, bottom: int)
    requires top in {0, 1} && bottom in {0, 1}
    ensures TopBit(Cell(top, bottom)) == top && BottomBit(Cell(top, bottom)) == bottom
  {
  }

  /** The packed form of a glyph row's own pixel pair is its canonical form. */
  lemma PackPairOfRow(line: Row)
    requires |line| > 0
    ensures PackPair(TopRow(line), BottomRow(line)) == seq(|line|, j requires 0 <= j < |line| => Canon(line[j]))
  {
    forall j | 0 <= j < |line|
      ensures PackPair(TopRow(line), BottomRow(line))[j] == Canon(line[j])
    {
      CellOfBits(line[j]);
    }
  }

  /** Round trip: packing an unpacked glyph drops its zero-width rows and canonicalises its runes. */
  lemma {:induction false} PackUnpack(g: Glyph)
    ensures Pack(Unpack(g)) == Canonical(g)
  {
    if |g| > 0 {
      var b := Unpack(g);
      assert b[0] == TopRow(g[0]) && b[1] == BottomRow(g[0]);
      assert b[2..] == Unpack(g[1..]);
      PackUnpack(g[1..]);
      if |g[0]| > 0 {
        PackPairOfRow(g[0]);
      }
    }
  }

  /** A glyph with no zero-width row, drawn from the four block runes, is its own canonical form. */
  lemma {:induction false} CanonicalOfWellFormed(g: Glyph)
    requires forall i :: 0 <= i < |g| ==> |g[i]| > 0
    requires BlockRunesOnly(g)
    ensures Canonical(g) == g
  {
    if |g| > 0 {
      CanonicalOfWellFormed(g[1..]);
      var row := seq(|g[0]|, j requires 0 <= j < |g[0]| => Canon(g[0][j]));
      assert forall j :: 0 <= j < |g[0]| ==> IsBlockRune(g[0][j]);
      assert row == g[0];
      assert g == [g[0]] + g[1..];
    }
  }

  /** Round trip on well-formed glyphs: `pack(unpack(g)) == g`. */
  lemma RoundTrip(g: Glyph)
    requires forall i :: 0 <= i < |g| ==> |g[i]| > 0
    requires BlockRunesOnly(g)
    ensures Pack(Unpack(g)) == g
  {
    PackUnpack(g);
    CanonicalOfWellFormed(g);
  }

  /** A pixel matrix that packing loses nothing of: binary, even height, equal-width non-empty pairs. */
  predicate PairedBitmap(b: Bitmap) {
    && |b| % 2 == 0
    && IsBinary(b)
    && forall y :: 0 <= y < |b| && y % 2 == 0 ==> |b[y]| > 0 && |b[y + 1]| == |b[y]|
  }

  /** The other round trip: unpacking a packed paired matrix gives back the matrix. */
  lemma {:induction false} UnpackPack(b: Bitmap)
    requires PairedBitmap(b)
    ensures Unpack(Pack(b)) == b
    decreases |b|
  {
    if |b| > 0 {
      assert |b[0]| > 0 && |b[1]| == |b[0]|;
      var rest := b[2..];
      assert PairedBitmap(rest) by {
        assert forall y :: 0 <= y < |rest| ==> rest[y] == b[y + 2];
      }
      UnpackPack(rest);
      var line := PackPair(b[0], b[1]);
      var g := Pack(b);
      assert g == [line] + Pack(rest);
      assert g[1..] == Pack(rest);
      RowsOfPackedPair(b[0], b[1]);
      assert Unpack(g) == [TopRow(line), BottomRow(line)] + Unpack(g[1..]);
      assert b == [b[0], b[1]] + rest;
    }
  }

  /** Unpacking the rune row packed from a binary pixel pair of equal width gives back the pair. */
  lemma RowsOfPackedPair(top: PixelRow, bottom: PixelRow)
    requires |bottom| == |top|
    requires forall x :: 0 <= x < |top| ==> top[x] in {0, 1} && bottom[x] in {0, 1}
    ensures TopRow(PackPair(top, bottom)) == top
    ensures BottomRow(PackPair(top, bottom)) == bottom
  {
    var line := PackPair(top, bottom);
    forall x | 0 <= x < |line|
      ensures TopBit(line[x]) == top[x] && BottomBit(line[x]) == bottom[x]
    {
      BitsOfCell(top[x], bottom[x]);
    }
  }

  /**
    Packing a matrix whose rows come in equal binary pairs never produces a
    half block: every rune is a full block or a space.
   */
  lemma {:induction false} PackOfDoubledRows(b: Bitmap)
    requires |b| % 2 == 0 && IsBinary(b)
    requires forall y :: 0 <= y < |b| && y % 2 == 0 ==> b[y + 1] == b[y]
    ensures forall i, j :: 0 <= i < |Pack(b)| && 0 <= j < |Pack(b)[i]| ==> Pack(b)[i][j] == Full || Pack(b)[i][j] == Space
    decreases |b|
  {
    if |b| > 0 {
      var rest := b[2..];
      assert forall y :: 0 <= y < |rest| ==> rest[y] == b[y + 2];
      PackOfDoubledRows(rest);
      assert b[1] == b[0];
      var line := PackPair(b[0], b[1]);
      forall x | 0 <= x < |line|
        ensures line[x] == Full || line[x] == Space
      {
        assert b[0][x] == 0 || b[0][x] == 1;
      }
    }
  }

  /** The partner pixel row of top row 2p; a missing last row of an odd-height bitmap is empty. */
  function PartnerRow(b: Bitmap, p: nat): PixelRow
    requires 2 * p < |b|
  {
    if 2 * p + 1 < |b| then b[2 * p + 1] else []
  }

  /**
    When every even pixel row is non-empty, there are ceil(H/2) output rows
    and row p is exactly the packed pair (2p, 2p+1), the last row of an
    odd-height bitmap being packed against no bottom row.
   */
  lemma {:induction false} PackRows(b: Bitmap)
    requires forall y :: 0 <= y < |b| && y % 2 == 0 ==> |b[y]| > 0
    ensures |Pack(b)| == (|b| + 1) / 2
    ensures forall p: nat :: p < (|b| + 1) / 2 ==> Pack(b)[p] == PackPair(b[2 * p], PartnerRow(b, p))
    decreases |b|
  {
    if |b| == 1 {
      assert |b[0]| > 0;
      assert Pack(b) == [PackPair(b[0], [])] + Pack([]);
    } else if |b| >= 2 {
      var rest := b[2..];
      assert forall y :: 0 <= y < |rest| ==> rest[y] == b[y + 2];
      PackRows(rest);
      assert |b[0]| > 0;
      assert Pack(b) == [PackPair(b[0], b[1])] + Pack(rest);
      forall p: nat | 1 <= p < (|b| + 1) / 2
        ensures Pack(b)[p] == PackPair(b[2 * p], PartnerRow(b, p))
      {
        assert Pack(b)[p] == Pack(rest)[p - 1];
        assert rest[2 * (p - 1)] == b[2 * p];
        assert PartnerRow(rest, p - 1) == PartnerRow(b, p);
      }
    }
  }
}
