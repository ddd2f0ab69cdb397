/**
  The glyph scaler (scaling.go:99-197): a glyph is unpacked to pixels, the
  pixel matrix is replicated (factor 2 or 4) or OR-pooled in 2x2 blocks
  (factor 0.5), and the result is packed back into half-block runes.
 */
module Scaling {
  import opened Glyphs
  import opened Packing

  /** The float scale factor, reduced to the values the scaler tells apart. */
  datatype ScaleFactor = Half | One | Two | Four | Other

  /** Euclidean division facts used for the index maps below. */
  lemma MulAtLeast(d: int, k: int)
    requires d >= 1 && k > 0
    ensures d * k >= k
  {
    assert d * k == (d - 1) * k + k;
    assert (d - 1) * k >= 0;
  }

  lemma DivOfMulPlus(a: int, k: int, r: int)
    requires k > 0 && 0 <= r < k
    ensures (a * k + r) / k == a
  {
    var n := a * k + r;
    var q := n / k;
    var m := n % k;
    assert n == q * k + m && 0 <= m < k;
    var d := a - q;
    assert d * k == m - r by {
      assert a * k - q * k == (a - q) * k;
    }
    if d >= 1 {
      MulAtLeast(d, k);
    }
  }

  /** `i` lies in the `q`-th block of `k` consecutive indices. */
  ghost predicate InBlock(i: int, k: int, q: int) {
    q * k <= i < q * k + k
  }

  lemma DivOfBlock(i: int, k: int, q: int)
    requires k > 0 && InBlock(i, k, q)
    ensures i / k == q
  {
    DivOfMulPlus(q, k, i - q * k);
  }

  /**
    `xs` with every element repeated `k` times in place: the pixel loop of
    scaling.go:145-150 on a row, and the row loop of scaling.go:152-157 on
    the widened rows.
   */
  function Stretch<T>(xs: seq<T>, k: int): (r: seq<T>)
    requires k > 1
    ensures |r| == k * |xs|
    ensures forall j :: 0 <= j < |r| ==> 0 <= j / k < |xs| && r[j] == xs[j / k]
  {
    if |xs| == 0 then []
    else
      var tail := Stretch(xs[1..], k);
      var r := seq(k, _ => xs[0]) + tail;
      assert k * |xs| == k + k * (|xs| - 1);
      forall j | 0 <= j < |r|
        ensures 0 <= j / k < |xs| && r[j] == xs[j / k]
      {
        StretchAt(xs, k, tail, r, j);
      }
      r
  }

  lemma StretchAt<T>(xs: seq<T>, k: int, tail: seq<T>, r: seq<T>, j: int)
    requires k > 1 && |xs| > 0
    requires |tail| == k * (|xs| - 1)
    requires forall j :: 0 <= j < |tail| ==> 0 <= j / k < |xs| - 1 && tail[j] == xs[1..][j / k]
    requires r == seq(k, _ => xs[0]) + tail
    requires 0 <= j < |r|
    ensures 0 <= j / k < |xs| && r[j] == xs[j / k]
  {
    if j < k {
      DivOfBlock(j, k, 0);
    } else {
      var q := (j - k) / k;
      assert 0 <= q < |xs| - 1;
      assert InBlock(j - k, k, q) by {
        assert j - k == q * k + (j - k) % k;
      }
      DivOfBlock(j, k, q + 1);
      assert r[j] == tail[j - k];
    }
  }

  /**
    Nearest-neighbour upscaling by an integer factor `k > 1`
    (scaling.go:141-159): every row is widened by repeating each pixel `k`
    times, and the widened row is emitted `k` times. The result has k times
    as many rows, row i is k times as wide as source row i/k, and
    `out[i][j] == in[i/k][j/k]`.
   */
  function Upscale(b: Bitmap, k: int): (r: Bitmap)
    requires k > 1
    ensures |r| == k * |b|
    ensures forall i :: 0 <= i < |r| ==> 0 <= i / k < |b| && |r[i]| == k * |b[i / k]|
    ensures forall i, j :: 0 <= i < |r| && 0 <= j < |r[i]| ==> 0 <= j / k < |b[i / k]| && r[i][j] == b[i / k][j / k]
  {
    Stretch(seq(|b|, i requires 0 <= i < |b| => Stretch(b[i], k)), k)
  }

  /**
    The rows the pooling loop reads exist: every source row it visits is at
    least as wide as the columns it visits. The source indexes the rows
    without a guard (scaling.go:180), so a shorter row would be out of range.
   */
  predicate DownscaleDefined(b: Bitmap, k: int) {
    k > 0 && |b| > 0 &&
    forall r :: 0 <= r < (|b| / k) * k ==> |b[r]| >= (|b[0]| / k) * k
  }

  /** Inner pooling loop (scaling.go:179-184): is any column in [c, cEnd) below `w` on in `row`? */
  function RowHasOn(row: PixelRow, c: int, cEnd: int, w: int): (on: bool)
    requires 0 <= c
    requires cEnd <= |row| || w <= |row|
    ensures on <==> exists x :: c <= x < cEnd && x < w && row[x] == 1
    decreases cEnd - c
  {
    if c >= cEnd then false
    else (c < w && row[c] == 1) || RowHasOn(row, c + 1, cEnd, w)
  }

  /** Outer pooling loop (scaling.go:178-188): is any pixel of the block on? */
  function BlockHasOn(b: Bitmap, r: int, rEnd: int, c: int, cEnd: int, w: int): (on: bool)
    requires 0 <= r && 0 <= c
    requires forall rr :: r <= rr < rEnd && rr < |b| ==> cEnd <= |b[rr]| || w <= |b[rr]|
    ensures on <==> exists rr, x :: r <= rr < rEnd && rr < |b| && c <= x < cEnd && x < w && b[rr][x] == 1
    decreases rEnd - r
  {
    if r >= rEnd then false
    else (r < |b| && RowHasOn(b[r], c, cEnd, w)) || BlockHasOn(b, r + 1, rEnd, c, cEnd, w)
  }

  lemma BlockInside(i: int, n: int, k: int)
    requires 0 <= i < n && k > 0
    ensures 0 <= i * k && (i + 1) * k <= n * k
  {
    assert (i + 1) * k <= n * k by {
      assert n * k - (i + 1) * k == (n - (i + 1)) * k;
    }
  }

  lemma FloorTimes(n: int, k: int)
    requires n >= 0 && k > 0
    ensures 0 <= (n / k) * k <= n
  {
    assert n == (n / k) * k + n % k;
  }

  /** Pixel (rr, x) exists and is on. */
  predicate On(b: Bitmap, rr: int, x: int) {
    0 <= rr < |b| && 0 <= x < |b[rr]| && b[rr][x] == 1
  }

  /** Some pixel of the k x k block (rn, cn) is on. */
  ghost predicate BlockOn(b: Bitmap, k: int, rn: int, cn: int) {
    exists rr, x :: rn * k <= rr < (rn + 1) * k && cn * k <= x < (cn + 1) * k && On(b, rr, x)
  }

  /** One destination pixel: 1 when the block scan finds an on pixel, else 0. */
  function PooledCell(b: Bitmap, k: int, rn: int, cn: int): (p: int)
    requires DownscaleDefined(b, k)
    requires 0 <= rn < |b| / k && 0 <= cn < |b[0]| / k
    ensures p == 0 || p == 1
    ensures p == 1 <==> BlockOn(b, k, rn, cn)
  {
    BlockInside(rn, |b| / k, k);
    BlockInside(cn, |b[0]| / k, k);
    FloorTimes(|b|, k);
    FloorTimes(|b[0]|, k);
    var on := BlockHasOn(b, rn * k, (rn + 1) * k, cn * k, (cn + 1) * k, |b[0]|);
    assert on <==> BlockOn(b, k, rn, cn) by {
      if on {
        var rr, x :| rn * k <= rr < (rn + 1) * k && rr < |b| && cn * k <= x < (cn + 1) * k && x < |b[0]| && b[rr][x] == 1;
        assert On(b, rr, x);
      }
      if BlockOn(b, k, rn, cn) {
        var rr, x :| rn * k <= rr < (rn + 1) * k && cn * k <= x < (cn + 1) * k && On(b, rr, x);
        assert x < |b[0]|;
      }
    }
    if on then 1 else 0
  }

  /**
    Max-pooling by `k` (scaling.go:160-193): the result is
    floor(H/k) x floor(W/k), W being the width of row 0, and a destination
    pixel is on iff some pixel of its k x k source block is on. A dimension
    that floors to 0 gives the single off pixel [[0]].
   */
  function Downscale(b: Bitmap, k: int): (r: Bitmap)
    requires DownscaleDefined(b, k)
    ensures |b| / k == 0 || |b[0]| / k == 0 ==> r == [[0]]
    ensures |b| / k > 0 && |b[0]| / k > 0 ==>
      && |r| == |b| / k
      && (forall i :: 0 <= i < |r| ==> |r[i]| == |b[0]| / k)
      && IsBinary(r)
      && (forall i, j :: 0 <= i < |r| && 0 <= j < |r[i]| ==> (r[i][j] == 1 <==> BlockOn(b, k, i, j)))
  {
    var newHeight := |b| / k;
    var newWidth := |b[0]| / k;
    if newHeight == 0 || newWidth == 0 then [[0]]
    else
      seq(newHeight, rn requires 0 <= rn < newHeight =>
        seq(newWidth, cn requires 0 <= cn < newWidth => PooledCell(b, k, rn, cn)))
  }

  /**
    scaleBitmap: returns the matrix unchanged when it is empty or its first
    row is, and for factor 1 or 0; a factor above 1 upscales and a negative
    factor downscales by its magnitude. The source's separate check for a
    zero downscale magnitude cannot fire, since the factor is negative there.
   */
  function ScaleBitmap(b: Bitmap, factor: int): (r: Bitmap)
    requires factor < 0 && |b| > 0 && |b[0]| > 0 ==> DownscaleDefined(b, -factor)
    ensures |b| == 0 || |b[0]| == 0 || factor == 0 || factor == 1 ==> r == b
    ensures |b| > 0 && |b[0]| > 0 && factor > 1 ==> r == Upscale(b, factor)
    ensures |b| > 0 && |b[0]| > 0 && factor < 0 ==> r == Downscale(b, -factor)
  {
    if |b| == 0 || |b[0]| == 0 then b
    else if factor == 1 then b
    else if factor > 1 then Upscale(b, factor)
    else if factor < 0 then Downscale(b, -factor)
    else b
  }

  /**
    The glyph-level precondition of halving: no row is narrower than the even
    part of the first row's width, so the pooling loop stays inside every
    pixel row it reads.
   */
  predicate HalvingDefined(g: Glyph) {
    |g| > 0 ==> forall i :: 0 <= i < |g| ==> |g[i]| >= (|g[0]| / 2) * 2
  }

  /** What scaling at factor `f` demands of a glyph: only halving has a demand. */
  predicate Scalable(g: Glyph, f: ScaleFactor) {
    f == Half ==> HalvingDefined(g)
  }

  lemma UnpackHalvable(g: Glyph)
    requires |g| > 0 && HalvingDefined(g)
    ensures DownscaleDefined(Unpack(g), 2)
  {
    var b := Unpack(g);
    assert b[0] == TopRow(g[0]);
    forall r | 0 <= r < (|b| / 2) * 2
      ensures |b[r]| >= (|b[0]| / 2) * 2
    {
      assert b[r] == PixelRowOf(g, r);
    }
  }

  /**
    scaleCharacter: factor 1 and the empty glyph are returned unchanged, as is
    any factor outside {0.5, 2, 4}; otherwise the glyph is unpacked, scaled
    by 2, 4 or -2 (halving), and packed again. The source's re-check of an
    empty unpacked matrix cannot fire, since a non-empty glyph unpacks to
    twice as many pixel rows.
   */
  function ScaleCharacter(g: Glyph, f: ScaleFactor): (r: Glyph)
    requires Scalable(g, f)
    ensures f == One || f == Other || |g| == 0 ==> r == g
    ensures f != One && f != Other && |g| > 0 ==> BlockRunesOnly(r)
  {
    if f == One || |g| == 0 then g
    else
      match f
      case Half =>
        UnpackHalvable(g);
        Pack(ScaleBitmap(Unpack(g), -2))
      case Two => Pack(ScaleBitmap(Unpack(g), 2))
      case Four => Pack(ScaleBitmap(Unpack(g), 4))
      case Other => g
  }

  /** The integer multiplier of an enlarging factor. */
  function Multiplier(f: ScaleFactor): int
    requires f == Two || f == Four
  {
    if f == Two then 2 else 4
  }

  /** Pixel (m, c) of a glyph's unpacked form, read straight from its runes; off outside the glyph. */
  function GlyphPixel(g: Glyph, m: int, c: int): int {
    if !(0 <= m < 2 * |g| && 0 <= c < |g[m / 2]|) then 0
    else if m % 2 == 0 then TopBit(g[m / 2][c]) else BottomBit(g[m / 2][c])
  }

  /** Pixel (m, c) of the unpacked glyph, read from the glyph's runes. */
  lemma UnpackedPixel(g: Glyph, m: int, c: int)
    requires 0 <= m < 2 * |g|
    ensures |Unpack(g)[m]| == |g[m / 2]|
    ensures 0 <= c < |g[m / 2]| ==> Unpack(g)[m][c] == GlyphPixel(g, m, c)
  {
    assert Unpack(g)[m] == PixelRowOf(g, m);
  }

  /** The enlarged pixel matrix of a glyph whose first row is non-empty has k times 2H rows. */
  lemma UpscaledHeight(g: Glyph, k: int)
    requires k == 2 || k == 4
    requires |g| > 0 && |g[0]| > 0
    ensures ScaleBitmap(Unpack(g), k) == Upscale(Unpack(g), k)
    ensures |ScaleBitmap(Unpack(g), k)| == k * (2 * |g|)
  {
    UnpackedPixel(g, 0, 0);
  }

  /**
    Row i of the enlarged pixel matrix is k times as wide as glyph row
    (i/k)/2, and its pixel j is the glyph's pixel (i/k, j/k).
   */
  lemma UpscaledRow(g: Glyph, k: int, i: int)
    requires k == 2 || k == 4
    requires |g| > 0 && |g[0]| > 0
    requires 0 <= i < k * (2 * |g|)
    ensures var u := ScaleBitmap(Unpack(g), k);
      && i < |u|
      && |u[i]| == k * |g[(i / k) / 2]|
      && forall j :: 0 <= j < |u[i]| ==> u[i][j] == GlyphPixel(g, i / k, j / k)
  {
    UpscaledHeight(g, k);
    var u := ScaleBitmap(Unpack(g), k);
    var m := i / k;
    UnpackedPixel(g, m, 0);
    forall j | 0 <= j < |u[i]|
      ensures u[i][j] == GlyphPixel(g, m, j / k)
    {
      UnpackedPixel(g, m, j / k);
    }
  }

  /**
    `u` replicates the unpacked glyph `g` k times in both directions: it has
    k times 2H rows, H being the glyph's row count, row i is k times as wide
    as glyph row (i/k)/2, and pixel (i, j) is the glyph's pixel (i/k, j/k).
   */
  ghost predicate Replicates(u: Bitmap, g: Glyph, k: int)
    requires k == 2 || k == 4
  {
    && |u| == k * (2 * |g|)
    && (forall i :: 0 <= i < |u| ==> |u[i]| == k * |g[(i / k) / 2]|)
    && (forall i, j :: 0 <= i < |u| && 0 <= j < |u[i]| ==> u[i][j] == GlyphPixel(g, i / k, j / k))
  }

  /** Enlarging a glyph whose first row is non-empty replicates its unpacked pixels k times each way. */
  lemma UpscaledPixels(g: Glyph, k: int)
    requires k == 2 || k == 4
    requires |g| > 0 && |g[0]| > 0
    ensures Replicates(ScaleBitmap(Unpack(g), k), g, k)
  {
    UpscaledHeight(g, k);
    var u := ScaleBitmap(Unpack(g), k);
    forall i | 0 <= i < |u|
      ensures |u[i]| == k * |g[(i / k) / 2]|
      ensures forall j :: 0 <= j < |u[i]| ==> u[i][j] == GlyphPixel(g, i / k, j / k)
    {
      UpscaledRow(g, k, i);
    }
  }

  /** Pixel rows 2i and 2i+1 replicate the same source row when k is 2 or 4. */
  lemma PairDiv(i: int, k: int)
    requires k == 2 || k == 4
    requires i >= 0
    ensures (2 * i + 1) / k == (2 * i) / k
    ensures ((2 * i) / k) / 2 == i / k
  {
    if k == 2 {
      assert (2 * i + 1) / 2 == i && (2 * i) / 2 == i;
    } else {
      assert (2 * i + 1) / 4 == i / 2 && (2 * i) / 4 == i / 2;
      assert (i / 2) / 2 == i / 4;
    }
  }

  lemma PairIndex(i: int, k: int, n: int)
    requires k == 2 || k == 4
    requires 0 <= i < k * n
    ensures 2 * i + 1 < k * (2 * n)
  {
  }

  lemma EvenIndex(y: int, k: int, n: int)
    requires k == 2 || k == 4
    requires 0 <= y < k * (2 * n) && y % 2 == 0
    ensures 0 <= y / 2 < k * n && 2 * (y / 2) == y
  {
  }

  lemma QuotientBound(i: int, k: int, n: int)
    requires k == 2 || k == 4
    requires 0 <= i < k * n
    ensures 0 <= i / k < n
  {
  }

  lemma DoubledCount(k: int, n: int)
    requires k == 2 || k == 4
    requires n >= 0
    ensures (k * (2 * n)) % 2 == 0 && (k * (2 * n)) / 2 == k * n
    ensures n > 0 ==> k * n > 0
  {
  }

  /**
    Pixel rows 2i and 2i+1 of a replicated glyph are equal copies of the
    glyph's pixel row (2i)/k, k times as wide as glyph row i/k.
   */
  lemma ReplicatedRowPair(u: Bitmap, g: Glyph, k: int, i: int)
    requires k == 2 || k == 4
    requires Replicates(u, g, k)
    requires 0 <= i < k * |g|
    ensures 2 * i + 1 < |u|
    ensures |u[2 * i]| == k * |g[i / k]|
    ensures u[2 * i + 1] == u[2 * i]
    ensures forall j :: 0 <= j < |u[2 * i]| ==> u[2 * i][j] == GlyphPixel(g, (2 * i) / k, j / k)
  {
    PairIndex(i, k, |g|);
    PairDiv(i, k);
    assert |u[2 * i + 1]| == |u[2 * i]|;
    forall j | 0 <= j < |u[2 * i]|
      ensures u[2 * i + 1][j] == u[2 * i][j]
    {
    }
  }

  /** A replicated glyph is binary. */
  lemma ReplicatedIsBinary(u: Bitmap, g: Glyph, k: int)
    requires k == 2 || k == 4
    requires Replicates(u, g, k)
    ensures IsBinary(u)
  {
  }

  /** The rows of a replicated glyph come in equal pairs. */
  lemma ReplicatedPairs(u: Bitmap, g: Glyph, k: int)
    requires k == 2 || k == 4
    requires Replicates(u, g, k)
    ensures |u| % 2 == 0
    ensures forall y :: 0 <= y < |u| && y % 2 == 0 ==> y + 1 < |u| && u[y + 1] == u[y]
  {
    DoubledCount(k, |g|);
    forall y | 0 <= y < |u| && y % 2 == 0
      ensures y + 1 < |u| && u[y + 1] == u[y]
    {
      EvenIndex(y, k, |g|);
      ReplicatedRowPair(u, g, k, y / 2);
    }
  }

  /** When every glyph row is non-empty, so is every even row of its replication. */
  lemma ReplicatedEvenRowsNonEmpty(u: Bitmap, g: Glyph, k: int)
    requires k == 2 || k == 4
    requires Replicates(u, g, k)
    requires forall i :: 0 <= i < |g| ==> |g[i]| > 0
    ensures forall y :: 0 <= y < |u| && y % 2 == 0 ==> |u[y]| > 0
  {
    forall y | 0 <= y < |u| && y % 2 == 0
      ensures |u[y]| > 0
    {
      EvenIndex(y, k, |g|);
      var i := y / 2;
      ReplicatedRowPair(u, g, k, i);
      DoubledCount(k, |g[i / k]|);
    }
  }

  /**
    Row i of a glyph enlarged k times: k times as wide as glyph row i/k, and
    each rune is a full block exactly when the pixel it replicates is on, a
    space otherwise.
   */
  predicate EnlargedRow(row: Row, g: Glyph, k: int, i: int)
    requires k == 2 || k == 4
  {
    && 0 <= i / k < |g|
    && |row| == k * |g[i / k]|
    && forall j :: 0 <= j < |row| ==> row[j] == (if GlyphPixel(g, (2 * i) / k, j / k) == 1 then Full else Space)
  }

  /** A glyph enlarged k times: k rows per glyph row, each an EnlargedRow. */
  predicate Enlarged(s: Glyph, g: Glyph, k: int)
    requires k == 2 || k == 4
  {
    && |s| == k * |g|
    && forall i :: 0 <= i < |s| ==> EnlargedRow(s[i], g, k, i)
  }

  /** The rune row packed from pixel rows 2i and 2i+1 of a replicated glyph. */
  lemma ReplicatedRow(u: Bitmap, g: Glyph, k: int, i: int)
    requires k == 2 || k == 4
    requires Replicates(u, g, k)
    requires 0 <= i < k * |g|
    ensures 2 * i + 1 < |u|
    ensures EnlargedRow(PackPair(u[2 * i], u[2 * i + 1]), g, k, i)
  {
    ReplicatedRowPair(u, g, k, i);
    QuotientBound(i, k, |g|);
    var row := PackPair(u[2 * i], u[2 * i + 1]);
    forall j | 0 <= j < |row|
      ensures row[j] == (if GlyphPixel(g, (2 * i) / k, j / k) == 1 then Full else Space)
    {
      assert row[j] == Cell(u[2 * i][j], u[2 * i][j]);
    }
  }

  /** Packing a replication of a glyph with no empty row gives the enlarged glyph. */
  lemma PackReplicated(u: Bitmap, g: Glyph, k: int)
    requires k == 2 || k == 4
    requires Replicates(u, g, k)
    requires |g| > 0 && forall i :: 0 <= i < |g| ==> |g[i]| > 0
    ensures Enlarged(Pack(u), g, k)
  {
    ReplicatedPairs(u, g, k);
    ReplicatedEvenRowsNonEmpty(u, g, k);
    DoubledCount(k, |g|);
    PackRows(u);
    var s := Pack(u);
    forall i | 0 <= i < |s|
      ensures EnlargedRow(s[i], g, k, i)
    {
      ReplicatedRow(u, g, k, i);
    }
  }

  /**
    Glyph-level size law of enlarging: when every glyph row is non-empty, the
    result has k times as many rows, row i is k times as wide as glyph row
    i/k, and each cell is a full block exactly when the pixel it replicates
    is on, and a space otherwise.
   */
  lemma UpscaledGlyph(g: Glyph, f: ScaleFactor)
    requires f == Two || f == Four
    requires forall i :: 0 <= i < |g| ==> |g[i]| > 0
    ensures Enlarged(ScaleCharacter(g, f), g, Multiplier(f))
  {
    if |g| > 0 {
      var k := Multiplier(f);
      EnlargedIsPacked(g, f);
      UpscaledPixels(g, k);
      PackReplicated(ScaleBitmap(Unpack(g), k), g, k);
    }
  }

  /** Enlarging a glyph is packing its unpacked form scaled by the multiplier. */
  lemma EnlargedIsPacked(g: Glyph, f: ScaleFactor)
    requires f == Two || f == Four
    requires |g| > 0
    ensures ScaleCharacter(g, f) == Pack(ScaleBitmap(Unpack(g), Multiplier(f)))
  {
  }

  /**
    After enlarging a glyph whose first row is non-empty, every rune is a
    full block or a space: pixel rows are replicated an even number of times
    and then packed in pairs, so each pair holds two equal rows.
   */
  lemma UpscaledGlyphHasNoHalfBlocks(g: Glyph, f: ScaleFactor)
    requires f == Two || f == Four
    requires |g| > 0 && |g[0]| > 0
    ensures var s := ScaleCharacter(g, f);
      forall i, j :: 0 <= i < |s| && 0 <= j < |s[i]| ==> s[i][j] == Full || s[i][j] == Space
  {
    var k := Multiplier(f);
    var u := ScaleBitmap(Unpack(g), k);
    EnlargedIsPacked(g, f);
    UpscaledPixels(g, k);
    ReplicatedPairs(u, g, k);
    ReplicatedIsBinary(u, g, k);
    PackOfDoubledRows(u);
  }

  /**
    When the first glyph row is empty the pixel matrix is returned unscaled,
    so an enlarging or halving factor only drops the empty rows and
    canonicalises the runes.
   */
  lemma EmptyFirstRowIsNotScaled(g: Glyph, f: ScaleFactor)
    requires f == Half || f == Two || f == Four
    requires |g| > 0 && |g[0]| == 0
    ensures ScaleCharacter(g, f) == Canonical(g)
  {
    var b := Unpack(g);
    assert b[0] == PixelRowOf(g, 0);
    PackUnpack(g);
  }

  /**
    Halving a glyph whose first row has 2 or more runes gives ceil(H/2) rows,
    H being the glyph's row count, each floor(W/2) runes wide, W being the
    width of its first row.
   */
  lemma HalvedGlyphShape(g: Glyph)
    requires |g| > 0 && |g[0]| >= 2 && HalvingDefined(g)
    ensures |ScaleCharacter(g, Half)| == (|g| + 1) / 2
    ensures forall i :: 0 <= i < |ScaleCharacter(g, Half)| ==> |ScaleCharacter(g, Half)[i]| == |g[0]| / 2
  {
    var b := Unpack(g);
    assert b[0] == PixelRowOf(g, 0);
    UnpackHalvable(g);
    HalvedRows(Downscale(b, 2));
  }

  /** Halving a glyph whose first row is a single rune collapses it to one space. */
  lemma HalvedSingleColumn(g: Glyph)
    requires |g| > 0 && |g[0]| == 1 && HalvingDefined(g)
    ensures ScaleCharacter(g, Half) == [[Space]]
  {
    var b := Unpack(g);
    assert b[0] == PixelRowOf(g, 0);
    UnpackHalvable(g);
    var d := Downscale(b, 2);
    assert d == [[0]];
    assert Pack(d) == [PackPair([0], [])];
    assert PackPair([0], []) == [Space];
  }

  /** Packing a rectangular matrix of non-empty rows gives ceil(H/2) rows of the same width. */
  lemma {:induction false} HalvedRows(d: Bitmap)
    requires forall i :: 0 <= i < |d| ==> |d[i]| > 0 && |d[i]| == |d[0]|
    ensures |Pack(d)| == (|d| + 1) / 2
    ensures forall i :: 0 <= i < |Pack(d)| ==> |Pack(d)[i]| == |d[0]|
    decreases |d|
  {
    if |d| >= 2 {
      var rest := d[2..];
      if |rest| > 0 {
        assert rest[0] == d[2];
      }
      HalvedRows(rest);
      assert Pack(d) == [PackPair(d[0], d[1])] + Pack(rest);
    } else if |d| == 1 {
      assert Pack(d) == [PackPair(d[0], [])];
    }
  }

  /**
    Halving is 2x2 OR-pooling: a destination pixel is on iff one of the four
    source pixels (2i, 2j), (2i, 2j+1), (2i+1, 2j), (2i+1, 2j+1) is on.
   */
  lemma HalvingIsOrPooling(b: Bitmap)
    requires DownscaleDefined(b, 2) && |b| >= 2 && |b[0]| >= 2
    ensures var d := ScaleBitmap(b, -2);
      forall i, j :: 0 <= i < |d| && 0 <= j < |d[i]| ==>
        (d[i][j] == 1 <==> b[2 * i][2 * j] == 1 || b[2 * i][2 * j + 1] == 1 || b[2 * i + 1][2 * j] == 1 || b[2 * i + 1][2 * j + 1] == 1)
  {
    var d := ScaleBitmap(b, -2);
    assert d == Downscale(b, 2);
    forall i, j | 0 <= i < |d| && 0 <= j < |d[i]|
      ensures d[i][j] == 1 <==> b[2 * i][2 * j] == 1 || b[2 * i][2 * j + 1] == 1 || b[2 * i + 1][2 * j] == 1 || b[2 * i + 1][2 * j + 1] == 1
    {
      if d[i][j] == 1 {
        var rr, x :| i * 2 <= rr < (i + 1) * 2 && j * 2 <= x < (j + 1) * 2 && On(b, rr, x);
        assert rr == 2 * i || rr == 2 * i + 1;
        assert x == 2 * j || x == 2 * j + 1;
      } else {
        assert !On(b, 2 * i, 2 * j) && !On(b, 2 * i, 2 * j + 1) && !On(b, 2 * i + 1, 2 * j) && !On(b, 2 * i + 1, 2 * j + 1);
      }
    }
  }
}
