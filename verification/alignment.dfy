/**
  Canvas alignment (alignment.go:7-78): a block of lines is padded with empty
  lines to a canvas height, and a single line is padded with spaces to a
  canvas width. The width of a line is its length in UTF-8 bytes, as Go's
  `len` on a string measures it.
 */
module Alignment {
  import opened Glyphs

  /**
    Vertical alignment. The source's type is an int; any value other than
    the three named constants falls through its switch and adds no top padding.
   */
  datatype VerticalAlignment = AlignTop | AlignMiddle | AlignBottom | OtherVertical

  /**
    Horizontal alignment. Any value other than the three named constants falls
    through the switch and adds no padding on either side.
   */
  datatype HorizontalAlignment = AlignLeft | AlignCenter | AlignRight | OtherHorizontal

  // ---------------------------------------------------------------- UTF-8

  /** Number of bytes UTF-8 spends on a rune. */
  function Utf8Width(c: char): (n: int)
    ensures 1 <= n <= 4
    ensures n == 1 <==> c as int < 0x80
  {
    if c as int < 0x80 then 1
    else if c as int < 0x800 then 2
    else if c as int < 0x1_0000 then 3
    else 4
  }

  /** Byte length of the UTF-8 encoding of a rune sequence: Go's `len` on the string. */
  function Utf8Len(s: seq<char>): (n: int)
    ensures |s| <= n <= 4 * |s|
  {
    if |s| == 0 then 0 else Utf8Width(s[0]) + Utf8Len(s[1..])
  }

  /** Byte length is additive over concatenation. */
  lemma {:induction false} Utf8LenAppend(a: seq<char>, b: seq<char>)
    ensures Utf8Len(a + b) == Utf8Len(a) + Utf8Len(b)
  {
    if |a| == 0 {
      assert a + b == b;
    } else {
      assert (a + b)[0] == a[0];
      assert (a + b)[1..] == a[1..] + b;
      Utf8LenAppend(a[1..], b);
    }
  }

  /** A run of spaces takes one byte per space. */
  lemma {:induction false} Utf8LenSpaces(n: nat)
    ensures Utf8Len(Spaces(n)) == n
  {
    if n > 0 {
      assert Spaces(n)[1..] == Spaces(n - 1);
      Utf8LenSpaces(n - 1);
    }
  }

  /** Byte length equals rune count exactly when every rune is ASCII. */
  lemma {:induction false} Utf8LenIsCountIffAscii(s: seq<char>)
    ensures Utf8Len(s) == |s| <==> forall i :: 0 <= i < |s| ==> s[i] as int < 0x80
  {
    if |s| > 0 {
      Utf8LenIsCountIffAscii(s[1..]);
      assert forall i :: 1 <= i < |s| ==> s[1..][i - 1] == s[i];
    }
  }

  /** Number of runes of a row that are not spaces. */
  function InkCount(row: Row): (n: nat)
    ensures n <= |row|
  {
    if |row| == 0 then 0 else (if row[0] == Space then 0 else 1) + InkCount(row[1..])
  }

  /** A row of block runes takes one byte per space and three per block. */
  lemma {:induction false} BlockRowBytes(row: Row)
    requires forall i :: 0 <= i < |row| ==> IsBlockRune(row[i])
    ensures Utf8Len(row) == |row| + 2 * InkCount(row)
  {
    if |row| > 0 {
      assert forall i :: 0 <= i < |row[1..]| ==> row[1..][i] == row[i + 1];
      BlockRowBytes(row[1..]);
    }
  }

  // ------------------------------------------------------ vertical alignment

  /**
    Empty lines above the block, out of `padding` spare lines: never more than
    there are, and centring leaves the odd line below the block.
   */
  function TopPadding(a: VerticalAlignment, padding: int): (t: int)
    ensures padding >= 0 ==> 0 <= t <= padding
    ensures a == AlignMiddle && padding >= 0 ==> t <= padding - t <= t + 1
  {
    match a
    case AlignTop => 0
    case AlignMiddle => padding / 2
    case AlignBottom => padding
    case OtherVertical => 0
  }

  /**
    ApplyVerticalAlignment: a block at least as tall as the canvas is returned
    as it is; otherwise the result is exactly the canvas height, the block sits
    from row TopPadding onwards, and every other row is empty.
   */
  function ApplyVerticalAlignment(lines: seq<Row>, canvasHeight: int, a: VerticalAlignment): (r: seq<Row>)
    ensures |lines| >= canvasHeight ==> r == lines
    ensures |lines| < canvasHeight ==>
      var top := TopPadding(a, canvasHeight - |lines|);
      && |r| == canvasHeight
      && 0 <= top <= canvasHeight - |lines|
      && r[top..top + |lines|] == lines
      && (forall i :: 0 <= i < |r| && !(top <= i < top + |lines|) ==> r[i] == [])
  {
    if |lines| >= canvasHeight then lines
    else
      var top := TopPadding(a, canvasHeight - |lines|);
      seq(canvasHeight, i requires 0 <= i < canvasHeight => if top <= i < top + |lines| then lines[i - top] else [])
  }

  /**
    The three alignments as block layouts: top puts all empty lines below,
    bottom all above, and middle puts floor(padding/2) above and the rest,
    equal or one more, below.
   */
  lemma VerticalLayouts(lines: seq<Row>, canvasHeight: int, a: VerticalAlignment)
    requires |lines| < canvasHeight
    ensures var r := ApplyVerticalAlignment(lines, canvasHeight, a);
      var padding := canvasHeight - |lines|;
      && (a == AlignTop || a == OtherVertical ==> r == lines + EmptyRows(padding))
      && (a == AlignBottom ==> r == EmptyRows(padding) + lines)
      && (a == AlignMiddle ==>
            var above := padding / 2;
            && r == EmptyRows(above) + lines + EmptyRows(padding - above)
            && 0 <= (padding - above) - above <= 1)
  {
    var padding := canvasHeight - |lines|;
    VerticalBlock(lines, canvasHeight, a);
    match a
    case AlignTop =>
      assert EmptyRows(0) + lines == lines;
    case OtherVertical =>
      assert EmptyRows(0) + lines == lines;
    case AlignBottom =>
      assert lines + EmptyRows(0) == lines;
    case AlignMiddle =>
  }

  /** The padded block is `top` empty rows, the lines, and the remaining empty rows. */
  lemma VerticalBlock(lines: seq<Row>, canvasHeight: int, a: VerticalAlignment)
    requires |lines| < canvasHeight
    ensures ApplyVerticalAlignment(lines, canvasHeight, a)
      == EmptyRows(TopPadding(a, canvasHeight - |lines|)) + lines
         + EmptyRows(canvasHeight - |lines| - TopPadding(a, canvasHeight - |lines|))
  {
    var padding := canvasHeight - |lines|;
    PlacedBlock(ApplyVerticalAlignment(lines, canvasHeight, a), lines, TopPadding(a, padding), padding);
  }

  /** Rows holding the lines at offset `top` and empty rows elsewhere are the lines framed by empty rows. */
  lemma PlacedBlock(r: seq<Row>, lines: seq<Row>, top: int, padding: int)
    requires 0 <= top <= padding && |r| == |lines| + padding
    requires r[top..top + |lines|] == lines
    requires forall i :: 0 <= i < |r| && !(top <= i < top + |lines|) ==> r[i] == []
    ensures r == EmptyRows(top) + lines + EmptyRows(padding - top)
  {
    var expected := EmptyRows(top) + lines + EmptyRows(padding - top);
    forall i | 0 <= i < |r|
      ensures r[i] == expected[i]
    {
      if top <= i < top + |lines| {
        assert r[i] == r[top..top + |lines|][i - top];
      }
    }
  }

  // ---------------------------------------------------- horizontal alignment

  /** Spaces before the line, out of `padding` spare columns. */
  function LeftPadding(a: HorizontalAlignment, padding: int): (l: int)
    ensures padding >= 0 ==> 0 <= l <= padding
  {
    match a
    case AlignLeft => 0
    case AlignCenter => padding / 2
    case AlignRight => padding
    case OtherHorizontal => 0
  }

  /**
    Spaces after the line, out of `padding` spare columns: for a named
    alignment, left and right padding share out all of them, and centring
    puts the odd column on the right.
   */
  function RightPadding(a: HorizontalAlignment, padding: int): (r: int)
    ensures padding >= 0 ==> r >= 0
    ensures a != OtherHorizontal ==> LeftPadding(a, padding) + r == padding
    ensures a == AlignCenter && padding >= 0 ==> LeftPadding(a, padding) <= r <= LeftPadding(a, padding) + 1
  {
    match a
    case AlignLeft => padding
    case AlignCenter => padding - padding / 2
    case AlignRight => 0
    case OtherHorizontal => 0
  }

  /** A line padded with `left` spaces before it and `right` after it. */
  function Padded(line: Row, left: nat, right: nat): Row {
    Spaces(left) + line + Spaces(right)
  }

  /** Padding adds one cell and one byte per space, keeps the line in place and fills the rest with spaces. */
  lemma PaddedLayout(line: Row, left: nat, right: nat)
    ensures |Padded(line, left, right)| == left + |line| + right
    ensures Padded(line, left, right)[left..left + |line|] == line
    ensures forall i :: 0 <= i < |Padded(line, left, right)| && !(left <= i < left + |line|) ==> Padded(line, left, right)[i] == Space
    ensures Utf8Len(Padded(line, left, right)) == left + Utf8Len(line) + right
  {
    Utf8LenAppend(Spaces(left), line);
    Utf8LenAppend(Spaces(left) + line, Spaces(right));
    Utf8LenSpaces(left);
    Utf8LenSpaces(right);
  }

  /**
    The padding step shared by both width measures: a line whose measured
    `width` reaches the canvas is returned as it is; otherwise the shortfall
    is split into leading and trailing spaces by the alignment.
   */
  function PadToWidth(line: Row, width: int, canvasWidth: int, a: HorizontalAlignment): (r: Row)
    ensures width >= canvasWidth ==> r == line
    ensures width < canvasWidth ==>
      && 0 <= LeftPadding(a, canvasWidth - width) <= |r| - |line|
      && r[LeftPadding(a, canvasWidth - width)..LeftPadding(a, canvasWidth - width) + |line|] == line
      && (forall i :: 0 <= i < |r| && !(LeftPadding(a, canvasWidth - width) <= i < LeftPadding(a, canvasWidth - width) + |line|) ==> r[i] == Space)
      && (a != OtherHorizontal ==> |r| == |line| + canvasWidth - width && Utf8Len(r) == Utf8Len(line) + canvasWidth - width)
      && (a == OtherHorizontal ==> r == line)
  {
    if width >= canvasWidth then line
    else
      var padding := canvasWidth - width;
      PaddedLayout(line, LeftPadding(a, padding), RightPadding(a, padding));
      Padded(line, LeftPadding(a, padding), RightPadding(a, padding))
  }

  /**
    ApplyHorizontalAlignment, as written: a line whose UTF-8 byte length
    reaches the canvas width is returned as it is; otherwise the byte
    shortfall is split into leading and trailing spaces by the alignment, and
    for the three named alignments the result is exactly canvasWidth bytes.
   */
  function ApplyHorizontalAlignment(line: Row, canvasWidth: int, a: HorizontalAlignment): (r: Row)
    ensures Utf8Len(line) >= canvasWidth ==> r == line
    ensures Utf8Len(line) < canvasWidth ==>
      && 0 <= LeftPadding(a, canvasWidth - Utf8Len(line)) <= |r| - |line|
      && r[LeftPadding(a, canvasWidth - Utf8Len(line))..LeftPadding(a, canvasWidth - Utf8Len(line)) + |line|] == line
      && (forall i :: 0 <= i < |r| && !(LeftPadding(a, canvasWidth - Utf8Len(line)) <= i < LeftPadding(a, canvasWidth - Utf8Len(line)) + |line|) ==> r[i] == Space)
      && (a != OtherHorizontal ==> Utf8Len(r) == canvasWidth)
      && (a == OtherHorizontal ==> r == line)
  {
    var width := Utf8Len(line);
    var r := PadToWidth(line, width, canvasWidth, a);
    assert width < canvasWidth && a != OtherHorizontal ==> Utf8Len(r) == canvasWidth;
    r
  }

  /**
    The split of the padding: left alignment puts every space after the
    line, right alignment every space before it, and centring puts
    floor(padding/2) before and the rest, equal or one more, after.
   */
  lemma HorizontalSplit(line: Row, canvasWidth: int, a: HorizontalAlignment)
    requires Utf8Len(line) < canvasWidth
    ensures var r := ApplyHorizontalAlignment(line, canvasWidth, a);
      var padding := canvasWidth - Utf8Len(line);
      && (a == AlignLeft ==> r == line + Spaces(padding))
      && (a == AlignRight ==> r == Spaces(padding) + line)
      && (a == AlignCenter ==>
            var before := padding / 2;
            && r == Spaces(before) + line + Spaces(padding - before)
            && 0 <= (padding - before) - before <= 1)
  {
    var padding := canvasWidth - Utf8Len(line);
    AlignedIsPadded(line, canvasWidth, a);
    match a
    case AlignLeft =>
      assert Spaces(0) + line == line;
    case AlignRight =>
      assert Spaces(padding) + line + Spaces(0) == Spaces(padding) + line;
    case AlignCenter =>
    case OtherHorizontal =>
  }

  /** A short line is padded with the alignment's left and right spaces. */
  lemma AlignedIsPadded(line: Row, canvasWidth: int, a: HorizontalAlignment)
    requires Utf8Len(line) < canvasWidth
    ensures ApplyHorizontalAlignment(line, canvasWidth, a)
      == Spaces(LeftPadding(a, canvasWidth - Utf8Len(line))) + line + Spaces(RightPadding(a, canvasWidth - Utf8Len(line)))
  {
    PaddedToWidth(line, Utf8Len(line), canvasWidth, a);
  }

  /** Below the canvas width the padding step is the padded line, whatever the width measure. */
  lemma PaddedToWidth(line: Row, width: int, canvasWidth: int, a: HorizontalAlignment)
    requires width < canvasWidth
    ensures PadToWidth(line, width, canvasWidth, a)
      == Padded(line, LeftPadding(a, canvasWidth - width), RightPadding(a, canvasWidth - width))
  {
  }

  /**
    The cell width of a padded line falls short of the canvas by the bytes
    its multi-byte runes spend beyond one each.
   */
  lemma PaddedCellWidth(line: Row, canvasWidth: int, a: HorizontalAlignment)
    requires Utf8Len(line) < canvasWidth && a != OtherHorizontal
    ensures |ApplyHorizontalAlignment(line, canvasWidth, a)| == canvasWidth - (Utf8Len(line) - |line|)
  {
  }

  /**
    Corrected horizontal alignment: width measured in cells (runes), so a
    padded line is exactly canvasWidth cells wide.
   */
  function AlignHorizontalCells(line: Row, canvasWidth: int, a: HorizontalAlignment): (r: Row)
    ensures |line| >= canvasWidth ==> r == line
    ensures |line| < canvasWidth ==>
      && 0 <= LeftPadding(a, canvasWidth - |line|) <= |r| - |line|
      && r[LeftPadding(a, canvasWidth - |line|)..LeftPadding(a, canvasWidth - |line|) + |line|] == line
      && (forall i :: 0 <= i < |r| && !(LeftPadding(a, canvasWidth - |line|) <= i < LeftPadding(a, canvasWidth - |line|) + |line|) ==> r[i] == Space)
      && (a != OtherHorizontal ==> |r| == canvasWidth)
      && (a == OtherHorizontal ==> r == line)
  {
    PadToWidth(line, |line|, canvasWidth, a)
  }

  /** On ASCII lines the two measures agree, so the corrected alignment changes nothing there. */
  lemma CellsAgreeOnAscii(line: Row, canvasWidth: int, a: HorizontalAlignment)
    requires forall i :: 0 <= i < |line| ==> line[i] as int < 0x80
    ensures AlignHorizontalCells(line, canvasWidth, a) == ApplyHorizontalAlignment(line, canvasWidth, a)
  {
    Utf8LenIsCountIffAscii(line);
  }

  /**
    A one-block line on a three-column canvas: its three UTF-8 bytes already
    reach the width, so centring leaves it one cell wide at the left edge,
    where the cell measure centres it between two spaces.
   */
  lemma CenteringBlockCountsBytes()
    ensures ApplyHorizontalAlignment([Full], 3, AlignCenter) == [Full]
    ensures AlignHorizontalCells([Full], 3, AlignCenter) == [Space, Full, Space]
  {
    assert Utf8Len([Full]) == 3 by {
      assert [Full][1..] == [];
    }
    var r := AlignHorizontalCells([Full], 3, AlignCenter);
    assert r == Spaces(1) + [Full] + Spaces(1);
  }
}
