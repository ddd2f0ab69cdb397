/**
  Collision-based kerning (kerning.go:8-189): the spacing between a left glyph
  A and a right glyph B is chosen from {-1, 0, +1} by probing every ink cell of
  B, shifted right by A's width plus the trial spacing, against A's ink.

  Horizontal positions of B's probes may carry a half-pixel offset, so every x
  coordinate compared is kept doubled: a cell at column x sits at 2x, a
  probe half a column further right at 2x + 1, and the source's
  `abs(ax - bx) < 1.0` reads `|2ax - 2bx| < 2`.
 */
module Kerning {
  import opened Glyphs

  /**
    runeAt: the rune at column x with true, when x is a column of the row;
    a space with false otherwise, negative columns included.
   */
  function RuneAt(s: Row, x: int): (res: (char, bool))
    ensures 0 <= x < |s| ==> res == (s[x], true)
    ensures !(0 <= x < |s|) ==> res == (Space, false)
    decreases |s|
  {
    if x < 0 || |s| == 0 then (Space, false)
    else if x == 0 then (s[0], true)
    else RuneAt(s[1..], x - 1)
  }

  /** maxRowLen: the widest row's rune count, 0 for a glyph with no rows. */
  function MaxRowLen(rows: Glyph): (m: nat)
    ensures forall i :: 0 <= i < |rows| ==> |rows[i]| <= m
    ensures |rows| == 0 ==> m == 0
    ensures |rows| > 0 ==> exists i :: 0 <= i < |rows| && |rows[i]| == m
  {
    if |rows| == 0 then 0
    else
      var rest := MaxRowLen(rows[1..]);
      assert forall i :: 1 <= i < |rows| ==> rows[i] == rows[1..][i - 1];
      Max(|rows[0]|, rest)
  }

  /** A row right-padded with spaces to at least `w` runes. */
  function PadRight(row: Row, w: int): (r: Row)
    ensures |r| == Max(|row|, w)
    ensures r[..|row|] == row
    ensures forall j :: |row| <= j < |r| ==> r[j] == Space
  {
    if |row| < w then row + Spaces(w - |row|) else row
  }

  /** Row i of a glyph normalised to width w: the glyph's row padded with spaces, or all spaces below the glyph. */
  function NormalRow(g: Glyph, w: nat, i: nat): (r: Row)
    requires i < |g| ==> |g[i]| <= w
    ensures |r| == w
    ensures i < |g| ==> r[..|g[i]|] == g[i]
    ensures forall j :: 0 <= j < w && !(i < |g| && j < |g[i]|) ==> r[j] == Space
  {
    if i < |g| then PadRight(g[i], w) else Spaces(w)
  }

  /**
    normalizeGlyph: exactly `height` rows, each as wide as the glyph's widest
    row; row i < |g| is g[i] followed by spaces, later rows are all spaces.
    A `height` below the glyph's row count keeps only its first rows.
   */
  function NormalizeGlyph(g: Glyph, height: nat): (r: Glyph)
    ensures |r| == height
    ensures forall i :: 0 <= i < height ==> |r[i]| == MaxRowLen(g)
    ensures forall i :: 0 <= i < height && i < |g| ==> |g[i]| <= |r[i]| && r[i][..|g[i]|] == g[i]
    ensures forall i, j :: 0 <= i < height && 0 <= j < |r[i]| && !(i < |g| && j < |g[i]|) ==> r[i][j] == Space
  {
    var w := MaxRowLen(g);
    seq(height, i requires 0 <= i < height => NormalRow(g, w, i))
  }

  /** Normalising keeps the glyph's width. */
  lemma NormalizeKeepsWidth(g: Glyph, height: nat)
    requires height > 0
    ensures MaxRowLen(NormalizeGlyph(g, height)) == MaxRowLen(g)
  {
    var r := NormalizeGlyph(g, height);
    assert |r[0]| == MaxRowLen(g);
  }

  /** Space and NUL are background; every other rune is ink. */
  predicate IsBackground(c: char) {
    c == Space || c == '\0'
  }

  /** getActivePixels: the (x, y) cells whose rune is ink, read through runeAt. */
  function ActivePixels(g: Glyph): (ink: set<(int, int)>)
    ensures forall p :: p in ink <==> 0 <= p.1 < |g| && 0 <= p.0 < |g[p.1]| && !IsBackground(g[p.1][p.0])
  {
    set y, x | 0 <= y < |g| && 0 <= x < |g[y]| && !IsBackground(RuneAt(g[y], x).0) :: (x, y)
  }

  function AbsInt(v: int): int {
    if v < 0 then -v else v
  }

  /** A's ink cell p lies within one column (doubled: 2) of doubled position x2, in row y. */
  predicate Near(p: (int, int), x2: int, y: int) {
    AbsInt(2 * p.0 - x2) < 2 && p.1 == y
  }

  /** The ink cells near a probe position. */
  function Hits(ink: set<(int, int)>, x2: int, y: int): set<(int, int)> {
    set p | p in ink && Near(p, x2, y)
  }

  /** Direct overlap: some ink cell of A is near the probe in its own row. */
  predicate DirectOverlap(ink: set<(int, int)>, x2: int, y: int) {
    exists p :: p in ink && Near(p, x2, y)
  }

  /** The eight neighbour offsets (dx, dy), dy outer and dx inner, both from -1 to 1. */
  const Neighbours: seq<(int, int)> := [(-1, -1), (0, -1), (1, -1), (-1, 0), (1, 0), (-1, 1), (0, 1), (1, 1)]

  /** A hit at a purely horizontal neighbour counts 1 + 2; every other hit counts 1. */
  function Weight(d: (int, int)): (w: int)
    ensures w >= 1
    ensures w == 3 <==> d.0 != 0 && d.1 == 0
  {
    if d.0 != 0 && d.1 == 0 then 3 else 1
  }

  /**
    The neighbour table has eight distinct offsets, and only the left and
    right neighbours (entries 3 and 4) weigh 3.
   */
  lemma NeighbourWeights()
    ensures |Neighbours| == 8
    ensures forall i, j :: 0 <= i < j < 8 ==> Neighbours[i] != Neighbours[j]
    ensures forall i :: 0 <= i < 8 ==> (Weight(Neighbours[i]) == 3 <==> i == 3 || i == 4)
  {
  }

  /**
    The neighbour table is the source's double loop: its offsets are exactly
    the steps of at most one in each direction other than standing still.
   */
  lemma NeighbourOffsets()
    ensures forall d :: d in Neighbours <==> -1 <= d.0 <= 1 && -1 <= d.1 <= 1 && d != (0, 0)
  {
    forall d: (int, int) | -1 <= d.0 <= 1 && -1 <= d.1 <= 1 && d != (0, 0)
      ensures d in Neighbours
    {
      if d.1 == -1 {
        assert d == Neighbours[d.0 + 1];
      } else if d.1 == 0 {
        assert d == Neighbours[if d.0 < 0 then 3 else 4];
      } else {
        assert d == Neighbours[d.0 + 6];
      }
    }
  }

  /** Weighted number of A's ink cells near the neighbour of a probe at offset d. */
  function NeighbourScore(ink: set<(int, int)>, x2: int, y: int, d: (int, int)): (n: int)
    ensures n >= 0
  {
    Weight(d) * |Hits(ink, x2 + 2 * d.0, y + d.1)|
  }

  /** The adjacency score of a probe at doubled column x2 in row y: the sum over its eight neighbours. */
  function ConflictCount(ink: set<(int, int)>, x2: int, y: int): (n: int)
    ensures n >= 0
    ensures ink == {} ==> n == 0
    ensures n == 3 * (|Hits(ink, x2 - 2, y)| + |Hits(ink, x2 + 2, y)|)
      + |Hits(ink, x2 - 2, y - 1)| + |Hits(ink, x2, y - 1)| + |Hits(ink, x2 + 2, y - 1)|
      + |Hits(ink, x2 - 2, y + 1)| + |Hits(ink, x2, y + 1)| + |Hits(ink, x2 + 2, y + 1)|
  {
    var n := Neighbours;
    NeighbourScore(ink, x2, y, n[0]) + NeighbourScore(ink, x2, y, n[1]) + NeighbourScore(ink, x2, y, n[2])
    + NeighbourScore(ink, x2, y, n[3]) + NeighbourScore(ink, x2, y, n[4])
    + NeighbourScore(ink, x2, y, n[5]) + NeighbourScore(ink, x2, y, n[6]) + NeighbourScore(ink, x2, y, n[7])
  }

  /** A probe collides on a direct overlap or on an adjacency score of 3 or more. */
  predicate PixelCollides(ink: set<(int, int)>, x2: int, y: int) {
    DirectOverlap(ink, x2, y) || ConflictCount(ink, x2, y) >= 3
  }

  /**
    The half-pixel adjustment applies when the glyphs' heights differ by an
    odd number of rows. Go's `%` truncates toward zero and Dafny's does not,
    but the two remainders are zero together.
   */
  predicate NeedsHalfPixel(a: Glyph, b: Glyph) {
    (|a| - |b|) % 2 != 0
  }

  /** The adjustment applies exactly when one glyph has an odd and the other an even number of rows. */
  lemma {:induction false} HalfPixelIffParitiesDiffer(a: Glyph, b: Glyph)
    ensures NeedsHalfPixel(a, b) <==> |a| % 2 != |b| % 2
  {
    assert |a| == 2 * (|a| / 2) + |a| % 2;
    assert |b| == 2 * (|b| / 2) + |b| % 2;
    assert |a| - |b| == 2 * (|a| / 2 - |b| / 2) + (|a| % 2 - |b| % 2);
  }

  /** Doubled probe column of B's cell (xB, yB): half a column further in B's lower half when adjusted. */
  function ProbeX2(b: Glyph, widthA: int, spacing: int, half: bool, xB: int, yB: int): (x2: int)
    ensures x2 / 2 == widthA + spacing + xB
    ensures x2 % 2 == 1 <==> half && yB >= |b| / 2
  {
    2 * (widthA + spacing + xB) + (if half && yB >= |b| / 2 then 1 else 0)
  }

  /** B's cell (x, y) is ink and its probe collides with A's ink. */
  predicate InkCollides(ink: set<(int, int)>, b: Glyph, widthA: int, spacing: int, half: bool, x: int, y: int) {
    && 0 <= y < |b| && 0 <= x < |b[y]|
    && !IsBackground(b[y][x])
    && PixelCollides(ink, ProbeX2(b, widthA, spacing, half, x, y), y)
  }

  /** Scan of row y of B from column x on, stopping at the first colliding ink cell. */
  function ScanRow(ink: set<(int, int)>, b: Glyph, widthA: int, spacing: int, half: bool, y: int, x: nat): (hit: bool)
    requires 0 <= y < |b|
    ensures hit <==> exists x' :: x <= x' < |b[y]| && InkCollides(ink, b, widthA, spacing, half, x', y)
    decreases |b[y]| - x
  {
    if x >= |b[y]| then false
    else
      var c := RuneAt(b[y], x).0;
      assert c == b[y][x];
      if !IsBackground(c) && PixelCollides(ink, ProbeX2(b, widthA, spacing, half, x, y), y) then
        assert InkCollides(ink, b, widthA, spacing, half, x, y);
        true
      else ScanRow(ink, b, widthA, spacing, half, y, x + 1)
  }

  /** Scan of B's rows from row y on. */
  function ScanRows(ink: set<(int, int)>, b: Glyph, widthA: int, spacing: int, half: bool, y: nat): (hit: bool)
    ensures hit <==> exists y', x' :: y <= y' < |b| && InkCollides(ink, b, widthA, spacing, half, x', y')
    decreases |b| - y
  {
    if y >= |b| then false
    else ScanRow(ink, b, widthA, spacing, half, y, 0) || ScanRows(ink, b, widthA, spacing, half, y + 1)
  }

  /**
    checkCollisionWithSmartBuffer: true exactly when some ink cell of B,
    placed at column widthA + spacing + xB (half a column further in B's
    lower half when the heights differ by an odd count), collides with A's
    ink.
   */
  function CheckCollision(a: Glyph, b: Glyph, widthA: int, spacing: int): (hit: bool)
    ensures hit <==> exists x, y :: InkCollides(ActivePixels(a), b, widthA, spacing, NeedsHalfPixel(a, b), x, y)
  {
    ScanRows(ActivePixels(a), b, widthA, spacing, NeedsHalfPixel(a, b), 0)
  }

  /**
    A collision needs ink nearby: some ink cell of A within one row of the
    probe and less than two columns (doubled: 4) from it.
   */
  lemma CollisionNeedsNearbyInk(ink: set<(int, int)>, x2: int, y: int)
    requires PixelCollides(ink, x2, y)
    ensures exists p :: p in ink && AbsInt(2 * p.0 - x2) < 4 && AbsInt(p.1 - y) <= 1
  {
    if DirectOverlap(ink, x2, y) {
      var p :| p in ink && Near(p, x2, y);
      assert AbsInt(p.1 - y) <= 1;
    } else if |Hits(ink, x2 - 2, y)| > 0 {
      HitIsNearby(ink, x2, y, -2, 0);
    } else if |Hits(ink, x2 + 2, y)| > 0 {
      HitIsNearby(ink, x2, y, 2, 0);
    } else if |Hits(ink, x2 - 2, y - 1)| > 0 {
      HitIsNearby(ink, x2, y, -2, -1);
    } else if |Hits(ink, x2, y - 1)| > 0 {
      HitIsNearby(ink, x2, y, 0, -1);
    } else if |Hits(ink, x2 + 2, y - 1)| > 0 {
      HitIsNearby(ink, x2, y, 2, -1);
    } else if |Hits(ink, x2 - 2, y + 1)| > 0 {
      HitIsNearby(ink, x2, y, -2, 1);
    } else if |Hits(ink, x2, y + 1)| > 0 {
      HitIsNearby(ink, x2, y, 0, 1);
    } else {
      HitIsNearby(ink, x2, y, 2, 1);
    }
  }

  /** A hit at a neighbour of the probe is ink within one row and two columns of the probe. */
  lemma HitIsNearby(ink: set<(int, int)>, x2: int, y: int, dx2: int, dy: int)
    requires -2 <= dx2 <= 2 && -1 <= dy <= 1
    requires |Hits(ink, x2 + dx2, y + dy)| > 0
    ensures exists p :: p in ink && AbsInt(2 * p.0 - x2) < 4 && AbsInt(p.1 - y) <= 1
  {
    var p :| p in Hits(ink, x2 + dx2, y + dy);
    assert AbsInt(2 * p.0 - x2) < 4 && AbsInt(p.1 - y) <= 1;
  }

  /** A's ink cell in B's probe row, within one column of it or of either horizontal neighbour, forces a collision. */
  lemma RowNeighbourCollides(ink: set<(int, int)>, x2: int, y: int, p: (int, int))
    requires p in ink && p.1 == y
    requires AbsInt(2 * p.0 - x2) < 2 || AbsInt(2 * p.0 - (x2 - 2)) < 2 || AbsInt(2 * p.0 - (x2 + 2)) < 2
    ensures PixelCollides(ink, x2, y)
  {
    if AbsInt(2 * p.0 - x2) >= 2 {
      if AbsInt(2 * p.0 - (x2 - 2)) < 2 {
        assert p in Hits(ink, x2 - 2, y);
        assert NeighbourScore(ink, x2, y, Neighbours[3]) >= 3;
      } else {
        assert p in Hits(ink, x2 + 2, y);
        assert NeighbourScore(ink, x2, y, Neighbours[4]) >= 3;
      }
    }
  }

  /**
    Soundness of a clear verdict: when no collision is reported, every ink
    cell of A in the row of one of B's ink cells lies at least two columns
    (doubled: 4) away from that cell's probe.
   */
  lemma NoCollisionKeepsRowsApart(a: Glyph, b: Glyph, widthA: int, spacing: int)
    requires !CheckCollision(a, b, widthA, spacing)
    ensures forall xB, yB, p ::
      0 <= yB < |b| && 0 <= xB < |b[yB]| && !IsBackground(b[yB][xB]) && p in ActivePixels(a) && p.1 == yB ==>
        AbsInt(2 * p.0 - ProbeX2(b, widthA, spacing, NeedsHalfPixel(a, b), xB, yB)) >= 4
  {
    var ink := ActivePixels(a);
    var half := NeedsHalfPixel(a, b);
    forall xB, yB, p |
      0 <= yB < |b| && 0 <= xB < |b[yB]| && !IsBackground(b[yB][xB]) && p in ink && p.1 == yB
      ensures AbsInt(2 * p.0 - ProbeX2(b, widthA, spacing, half, xB, yB)) >= 4
    {
      var x2 := ProbeX2(b, widthA, spacing, half, xB, yB);
      if AbsInt(2 * p.0 - x2) < 4 {
        RowNeighbourCollides(ink, x2, yB, p);
        assert InkCollides(ink, b, widthA, spacing, half, xB, yB);
        assert false;
      }
    }
  }

  /**
    Hits above or below a probe, or on its diagonals, weigh 1 each: with
    nothing in its own row within one column of it or of its horizontal
    neighbours, a probe with at most two such hits does not collide.
   */
  lemma TwoTouchesTolerated(ink: set<(int, int)>, x2: int, y: int)
    requires forall p :: p in ink && p.1 == y ==> AbsInt(2 * p.0 - x2) >= 4
    requires |Hits(ink, x2 - 2, y - 1)| + |Hits(ink, x2, y - 1)| + |Hits(ink, x2 + 2, y - 1)|
           + |Hits(ink, x2 - 2, y + 1)| + |Hits(ink, x2, y + 1)| + |Hits(ink, x2 + 2, y + 1)| <= 2
    ensures !PixelCollides(ink, x2, y)
  {
    assert Hits(ink, x2 - 2, y) == {};
    assert Hits(ink, x2 + 2, y) == {};
  }

  /** The spacing chosen from {-1, 0, +1}: the least of -1 and 0 that does not collide, else +1. */
  predicate SpacingCollides(a: Glyph, b: Glyph, spacing: int) {
    var h := Max(|a|, |b|);
    var na := NormalizeGlyph(a, h);
    CheckCollision(na, NormalizeGlyph(b, h), MaxRowLen(na), spacing)
  }

  /**
    computeKerning: 0 when either glyph has no width; otherwise -1 when the
    glyphs do not collide at -1, 0 when they collide at -1 but not at 0, and
    +1 when they collide at both (+1 itself is never tried).
   */
  function ComputeKerning(a: Glyph, b: Glyph): (s: int)
    ensures s in {-1, 0, 1}
    ensures MaxRowLen(a) == 0 || MaxRowLen(b) == 0 ==> s == 0
    ensures MaxRowLen(a) > 0 && MaxRowLen(b) > 0 ==>
      && (s == -1 <==> !SpacingCollides(a, b, -1))
      && (s == 0 <==> SpacingCollides(a, b, -1) && !SpacingCollides(a, b, 0))
      && (s == 1 <==> SpacingCollides(a, b, -1) && SpacingCollides(a, b, 0))
  {
    if MaxRowLen(a) == 0 || MaxRowLen(b) == 0 then 0
    else
      var h := Max(|a|, |b|);
      var na := NormalizeGlyph(a, h);
      var nb := NormalizeGlyph(b, h);
      var widthA := MaxRowLen(na);
      if !CheckCollision(na, nb, widthA, -1) then -1
      else if !CheckCollision(na, nb, widthA, 0) then 0
      else 1
  }

  /** The chosen spacing is the least safe one: every smaller trial spacing collides, and a spacing below 1 is safe. */
  lemma KerningIsLeastSafe(a: Glyph, b: Glyph)
    requires MaxRowLen(a) > 0 && MaxRowLen(b) > 0
    ensures var s := ComputeKerning(a, b);
      && (forall t :: -1 <= t < s ==> SpacingCollides(a, b, t))
      && (s < 1 ==> !SpacingCollides(a, b, s))
  {
    var s := ComputeKerning(a, b);
    var tight, normal := SpacingCollides(a, b, -1), SpacingCollides(a, b, 0);
    forall t | -1 <= t < s
      ensures SpacingCollides(a, b, t)
    {
      assert t == -1 || (t == 0 && s == 1);
    }
  }

  /**
    Inside computeKerning both glyphs are normalised to the common height,
    so the half-pixel adjustment never applies and every probe column is a
    whole cell (its doubled value is even); the left glyph keeps its width.
   */
  lemma KerningProbesWholeCells(a: Glyph, b: Glyph, spacing: int, xB: int, yB: int)
    requires MaxRowLen(a) > 0 && MaxRowLen(b) > 0
    ensures !NeedsHalfPixel(NormalizeGlyph(a, Max(|a|, |b|)), NormalizeGlyph(b, Max(|a|, |b|)))
    ensures MaxRowLen(NormalizeGlyph(a, Max(|a|, |b|))) == MaxRowLen(a)
    ensures ProbeX2(NormalizeGlyph(b, Max(|a|, |b|)), MaxRowLen(a), spacing,
      NeedsHalfPixel(NormalizeGlyph(a, Max(|a|, |b|)), NormalizeGlyph(b, Max(|a|, |b|))), xB, yB)
      == 2 * (MaxRowLen(a) + spacing + xB)
  {
    var h := Max(|a|, |b|);
    assert |a| > 0;
    NormalizeKeepsWidth(a, h);
  }

  /** Every ink cell lies in a row of the glyph, left of its width. */
  lemma InkBelowWidth(g: Glyph, p: (int, int))
    requires p in ActivePixels(g)
    ensures 0 <= p.1 < |g| && 0 <= p.0 < MaxRowLen(g)
  {
  }

  /**
    One ink cell of B and one of A in the same row, with B placed
    widthA + spacing columns to the right on whole cells: they are at least
    two columns apart when the collision test passes at that spacing, or
    when the spacing is positive and widthA is A's width.
   */
  lemma InkCellsApart(a: Glyph, b: Glyph, widthA: int, spacing: int, xB: int, yB: int, p: (int, int))
    requires !NeedsHalfPixel(a, b) && widthA == MaxRowLen(a)
    requires 0 <= yB < |b| && 0 <= xB < |b[yB]| && !IsBackground(b[yB][xB])
    requires p in ActivePixels(a) && p.1 == yB
    requires spacing < 1 ==> !CheckCollision(a, b, widthA, spacing)
    ensures p.0 <= widthA + spacing + xB - 2 || p.0 >= widthA + spacing + xB + 2
  {
    InkBelowWidth(a, p);
    if spacing < 1 {
      NoCollisionKeepsRowsApart(a, b, widthA, spacing);
      assert AbsInt(2 * p.0 - ProbeX2(b, widthA, spacing, false, xB, yB)) >= 4;
    }
  }

  /**
    The end-to-end kerning guarantee: at the chosen spacing, an ink cell of
    the right glyph (xB, yB) sits at least two columns away from every ink
    cell of the left glyph in the same row, so the two never overlap. For
    -1 and 0 this is the collision test passing; for the +1 fallback it is
    the left glyph's ink lying left of its width.
   */
  lemma KerningNeverOverlaps(a: Glyph, b: Glyph, xB: int, yB: int, p: (int, int))
    requires MaxRowLen(a) > 0 && MaxRowLen(b) > 0
    requires 0 <= yB < |NormalizeGlyph(b, Max(|a|, |b|))| && 0 <= xB < |NormalizeGlyph(b, Max(|a|, |b|))[yB]|
    requires !IsBackground(NormalizeGlyph(b, Max(|a|, |b|))[yB][xB])
    requires p in ActivePixels(NormalizeGlyph(a, Max(|a|, |b|))) && p.1 == yB
    ensures p.0 <= MaxRowLen(a) + ComputeKerning(a, b) + xB - 2 || p.0 >= MaxRowLen(a) + ComputeKerning(a, b) + xB + 2
  {
    var h := Max(|a|, |b|);
    var na, nb := NormalizeGlyph(a, h), NormalizeGlyph(b, h);
    var s := ComputeKerning(a, b);
    KerningProbesWholeCells(a, b, s, xB, yB);
    KerningIsLeastSafe(a, b);
    InkCellsApart(na, nb, MaxRowLen(a), s, xB, yB, p);
  }

  /** A glyph whose runes are all background keeps no ink once normalised. */
  lemma NormalizedBlankHasNoInk(a: Glyph, height: nat)
    requires forall y, x :: 0 <= y < |a| && 0 <= x < |a[y]| ==> IsBackground(a[y][x])
    ensures ActivePixels(NormalizeGlyph(a, height)) == {}
  {
    var na := NormalizeGlyph(a, height);
    forall p | p in ActivePixels(na)
      ensures false
    {
    }
  }

  /** A left glyph without ink collides with nothing. */
  lemma NoInkNoCollision(a: Glyph, b: Glyph, widthA: int, spacing: int)
    requires ActivePixels(a) == {}
    ensures !CheckCollision(a, b, widthA, spacing)
  {
    forall x2, y
      ensures !PixelCollides({}, x2, y)
    {
      assert ConflictCount({}, x2, y) == 0;
    }
  }

  /**
    A left glyph that has width but no ink (a glyph of spaces) never
    collides, so the right glyph is always tucked in by one column.
   */
  lemma BlankLeftGlyphTucks(a: Glyph, b: Glyph)
    requires MaxRowLen(a) > 0 && MaxRowLen(b) > 0
    requires forall y, x :: 0 <= y < |a| && 0 <= x < |a[y]| ==> IsBackground(a[y][x])
    ensures ComputeKerning(a, b) == -1
  {
    var h := Max(|a|, |b|);
    var na := NormalizeGlyph(a, h);
    NormalizedBlankHasNoInk(a, h);
    NoInkNoCollision(na, NormalizeGlyph(b, h), MaxRowLen(na), -1);
  }

  /** A two-row, one-column glyph is already normal at height 2. */
  lemma NormalTwoByOne(a: Glyph)
    requires |a| == 2 && |a[0]| == 1 && |a[1]| == 1
    ensures NormalizeGlyph(a, 2) == a
  {
    assert MaxRowLen(a) == 1;
    var na := NormalizeGlyph(a, 2);
    assert na[0][..1] == a[0] && na[1][..1] == a[1];
  }

  /** A block over a blank row has its single ink cell at the origin. */
  lemma BlockOverBlankInk()
    ensures ActivePixels([[Full], [Space]]) == {(0, 0)}
  {
    var a: Glyph := [[Full], [Space]];
    var ink := ActivePixels(a);
    assert (0, 0) in ink;
    forall p | p in ink
      ensures p == (0, 0)
    {
      assert p.1 == 0 || p.1 == 1;
    }
  }

  /** A probe directly below the only ink cell scores 1 and does not collide. */
  lemma TouchBelowTolerated()
    ensures !PixelCollides({(0, 0)}, 0, 1)
  {
    var ink: set<(int, int)> := {(0, 0)};
    assert Hits(ink, 0, 0) == {(0, 0)};
    assert Hits(ink, -2, 0) == {} && Hits(ink, 2, 0) == {};
    assert Hits(ink, -2, 1) == {} && Hits(ink, 2, 1) == {};
    assert Hits(ink, -2, 2) == {} && Hits(ink, 0, 2) == {} && Hits(ink, 2, 2) == {};
    assert ConflictCount(ink, 0, 1) == 1;
  }

  /**
    A vertical touch is tolerated: with A a block over a blank row and B a
    blank row over a block, the kerning is -1, which puts B's block directly
    under A's, the two cells sharing an edge.
   */
  lemma VerticalTouchTucks()
    ensures ComputeKerning([[Full], [Space]], [[Space], [Full]]) == -1
  {
    var a: Glyph := [[Full], [Space]];
    var b: Glyph := [[Space], [Full]];
    assert MaxRowLen(a) == 1 && MaxRowLen(b) == 1;
    NormalTwoByOne(a);
    NormalTwoByOne(b);
    BlockOverBlankInk();
    TouchBelowTolerated();
    var ink := ActivePixels(a);
    forall x, y
      ensures !InkCollides(ink, b, 1, -1, false, x, y)
    {
      if 0 <= y < |b| && 0 <= x < |b[y]| && !IsBackground(b[y][x]) {
        assert x == 0 && y == 1;
      }
    }
    assert !CheckCollision(a, b, 1, -1);
  }
}
