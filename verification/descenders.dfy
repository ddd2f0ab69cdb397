/**
  Baseline estimation and descender analysis (alignment.go:80-219). A font-wide
  baseline row is estimated from the last inked row of a few sample lowercase
  letters after scaling; each glyph is then classified against it, and glyphs
  are bottom-padded with empty rows to a common height.
 */
module Descenders {
  import opened Glyphs
  import opened Scaling
  import opened Alignment

  /** A font as loaded: its name and the glyph of each character. */
  datatype FontData = FontData(name: string, characters: map<string, Glyph>)

  /** Descender properties of one glyph relative to the font-wide baseline row. */
  datatype DescenderInfo = DescenderInfo(
    hasDescender: bool,
    baselineHeight: int,
    descenderHeight: int,
    totalHeight: int,
    verticalOffset: int)

  /** The letters sampled for the baseline, in the order they are visited. */
  const SampleChars: seq<string> := ["a", "e", "o", "x", "n", "m", "s", "c"]

  /** The baseline row used when no sample letter has any ink. */
  const FallbackBaseline := 5

  /** A row has content when some rune in it is not a space (a NUL counts as content here). */
  predicate RowHasContent(row: Row) {
    exists j :: 0 <= j < |row| && row[j] != Space
  }

  /** Index of the lowest row with content, or -1 when every row is blank. */
  function LastContentRow(g: Glyph): (last: int)
    ensures -1 <= last < |g|
    ensures last >= 0 ==> RowHasContent(g[last])
    ensures forall k :: last < k < |g| ==> !RowHasContent(g[k])
  {
    if |g| == 0 then -1
    else if RowHasContent(g[|g| - 1]) then |g| - 1
    else LastContentRow(g[..|g| - 1])
  }

  /** Every glyph of the font can be scaled by the factor without the pooling loop leaving the rows. */
  predicate FontScalable(font: FontData, f: ScaleFactor) {
    forall c :: c in font.characters ==> Scalable(font.characters[c], f)
  }

  /**
    The sample letters present in the font can be scaled by the factor; only
    they are scaled when the baseline is estimated.
   */
  predicate SamplesScalable(font: FontData, f: ScaleFactor) {
    forall i :: 0 <= i < |SampleChars| && SampleChars[i] in font.characters ==>
      Scalable(font.characters[SampleChars[i]], f)
  }

  /** Last-content row of character `c`'s scaled glyph, or -1 when the font has no such character. */
  function SamplePosition(font: FontData, f: ScaleFactor, c: string): (p: int)
    requires c in font.characters ==> Scalable(font.characters[c], f)
    ensures p >= -1
    ensures c !in font.characters ==> p == -1
  {
    if c in font.characters then LastContentRow(ScaleCharacter(font.characters[c], f)) else -1
  }

  /** The sample position of each sample letter, in sample order. */
  function SamplePositions(font: FontData, f: ScaleFactor): (sp: seq<int>)
    requires SamplesScalable(font, f)
    ensures |sp| == |SampleChars|
    ensures forall i :: 0 <= i < |sp| ==> sp[i] == SamplePosition(font, f, SampleChars[i])
  {
    seq(|SampleChars|, i requires 0 <= i < |SampleChars| => SamplePosition(font, f, SampleChars[i]))
  }

  /**
    The positions kept for the average: the non-negative ones, in order
    (a letter that is absent or entirely blank contributes nothing).
   */
  function InkedRows(sp: seq<int>): (ps: seq<int>)
    ensures |ps| <= |sp|
    ensures |ps| == 0 <==> forall i :: 0 <= i < |sp| ==> sp[i] < 0
    ensures forall v :: multiset(ps)[v] == (if v >= 0 then multiset(sp)[v] else 0)
    ensures forall i :: 0 <= i < |ps| ==> ps[i] >= 0
  {
    if |sp| == 0 then []
    else
      var rest := InkedRows(sp[1..]);
      SplitFirst(sp);
      if sp[0] >= 0 then [sp[0]] + rest else rest
  }

  /** A non-empty sequence is, as a multiset, its first element and the rest. */
  lemma SplitFirst(sp: seq<int>)
    requires |sp| > 0
    ensures multiset(sp) == multiset{sp[0]} + multiset(sp[1..])
  {
    assert sp == [sp[0]] + sp[1..];
  }

  /** The last-content rows of the sample letters present in the font with ink, in sample order. */
  function BaselinePositions(font: FontData, f: ScaleFactor): (ps: seq<int>)
    requires SamplesScalable(font, f)
    ensures forall v :: v in ps <==> exists i :: 0 <= i < |SampleChars| && v == SamplePosition(font, f, SampleChars[i]) && v >= 0
    ensures |ps| == 0 <==> forall i :: 0 <= i < |SampleChars| ==> SamplePosition(font, f, SampleChars[i]) < 0
    ensures forall v :: multiset(ps)[v] == (if v >= 0 then multiset(SamplePositions(font, f))[v] else 0)
    ensures forall i :: 0 <= i < |ps| ==> ps[i] >= 0
  {
    var sp := SamplePositions(font, f);
    assert forall v :: v in sp <==> exists i :: 0 <= i < |SampleChars| && v == SamplePosition(font, f, SampleChars[i]) by {
      forall v | v in sp
        ensures exists i :: 0 <= i < |SampleChars| && v == SamplePosition(font, f, SampleChars[i])
      {
        var i :| 0 <= i < |sp| && sp[i] == v;
      }
    }
    InkedMembers(sp);
    InkedRows(sp)
  }

  /** The positions kept are exactly the non-negative ones. */
  lemma InkedMembers(sp: seq<int>)
    ensures forall v :: v in InkedRows(sp) <==> v in sp && v >= 0
  {
    var ps := InkedRows(sp);
    forall v
      ensures v in ps <==> v in sp && v >= 0
    {
      assert v in ps <==> multiset(ps)[v] > 0;
      assert v in sp <==> multiset(sp)[v] > 0;
    }
  }

  function Sum(xs: seq<int>): int {
    if |xs| == 0 then 0 else xs[0] + Sum(xs[1..])
  }

  function SeqMin(xs: seq<int>): (m: int)
    requires |xs| > 0
    ensures m in xs && forall i :: 0 <= i < |xs| ==> m <= xs[i]
  {
    if |xs| == 1 then xs[0]
    else
      var r := SeqMin(xs[1..]);
      assert forall i :: 1 <= i < |xs| ==> xs[i] == xs[1..][i - 1];
      if xs[0] <= r then xs[0] else r
  }

  function SeqMax(xs: seq<int>): (m: int)
    requires |xs| > 0
    ensures m in xs && forall i :: 0 <= i < |xs| ==> xs[i] <= m
  {
    if |xs| == 1 then xs[0]
    else
      var r := SeqMax(xs[1..]);
      assert forall i :: 1 <= i < |xs| ==> xs[i] == xs[1..][i - 1];
      if xs[0] >= r then xs[0] else r
  }

  /** A sum lies between count times the least and count times the greatest term. */
  lemma {:induction false} SumBounds(xs: seq<int>, lo: int, hi: int)
    requires forall i :: 0 <= i < |xs| ==> lo <= xs[i] <= hi
    ensures lo * |xs| <= Sum(xs) <= hi * |xs|
  {
    if |xs| > 0 {
      assert forall i :: 0 <= i < |xs[1..]| ==> xs[1..][i] == xs[i + 1];
      SumBounds(xs[1..], lo, hi);
      assert lo * |xs| == lo + lo * (|xs| - 1);
      assert hi * |xs| == hi + hi * (|xs| - 1);
    }
  }

  lemma CancelLess(a: int, b: int, n: int)
    requires n > 0 && a * n < b * n
    ensures a < b
  {
  }

  lemma QuotientBetween(s: int, n: int, lo: int, hi: int)
    requires n > 0 && lo * n <= s <= hi * n
    ensures lo <= s / n <= hi
  {
    var q := s / n;
    assert s == q * n + s % n && 0 <= s % n < n;
    assert (q + 1) * n == q * n + n;
    CancelLess(lo, q + 1, n);
    CancelLess(q, hi + 1, n);
  }

  /**
    The mean of a non-empty sequence with Go's `/`, which truncates toward
    zero: a non-negative sum, as a sum of row indices is, is rounded down.
   */
  function Mean(xs: seq<int>): (m: int)
    requires |xs| > 0
    ensures SeqMin(xs) <= m <= SeqMax(xs)
    ensures Sum(xs) >= 0 ==> m * |xs| <= Sum(xs) < (m + 1) * |xs|
  {
    SumBounds(xs, SeqMin(xs), SeqMax(xs));
    TruncatedQuotient(Sum(xs), |xs|, SeqMin(xs), SeqMax(xs));
    GoDiv(Sum(xs), |xs|)
  }

  /** Go's integer division, which truncates toward zero. */
  function GoDiv(s: int, n: int): int
    requires n > 0
  {
    if s >= 0 then s / n else -((-s) / n)
  }

  /**
    A truncated quotient of a value between n times lo and n times hi lies
    between lo and hi, and for a non-negative value it is the floor.
   */
  lemma TruncatedQuotient(s: int, n: int, lo: int, hi: int)
    requires n > 0 && lo * n <= s <= hi * n
    ensures lo <= GoDiv(s, n) <= hi
    ensures s >= 0 ==> GoDiv(s, n) * n <= s < (GoDiv(s, n) + 1) * n
  {
    if s >= 0 {
      QuotientBetween(s, n, lo, hi);
      FloorQuotient(s, n);
    } else {
      assert -hi * n <= -s <= -lo * n;
      QuotientBetween(-s, n, -hi, -lo);
    }
  }

  lemma FloorQuotient(s: int, n: int)
    requires n > 0
    ensures (s / n) * n <= s < (s / n + 1) * n
  {
    assert s == (s / n) * n + s % n && 0 <= s % n < n;
    assert (s / n + 1) * n == (s / n) * n + n;
  }

  /**
    findCommonBaseline: the fallback row 5 when no sample letter has ink
    after scaling, otherwise the mean of the sample letters' last inked
    rows, rounded down, which lies between the least and the greatest of them.
   */
  function FindCommonBaseline(font: FontData, f: ScaleFactor): (baseline: int)
    requires SamplesScalable(font, f)
    ensures BaselineOf(BaselinePositions(font, f), baseline)
    ensures baseline >= 0
  {
    MeanOrFallback(BaselinePositions(font, f))
  }

  /**
    `baseline` is the fallback row for no positions, else the mean of the
    positions rounded down, which lies between the least and the greatest.
   */
  predicate BaselineOf(ps: seq<int>, baseline: int) {
    && (|ps| == 0 ==> baseline == FallbackBaseline)
    && (|ps| > 0 ==> SeqMin(ps) <= baseline <= SeqMax(ps))
    && (|ps| > 0 ==> baseline * |ps| <= Sum(ps) < (baseline + 1) * |ps|)
  }

  function MeanOrFallback(ps: seq<int>): (baseline: int)
    requires forall i :: 0 <= i < |ps| ==> ps[i] >= 0
    ensures BaselineOf(ps, baseline)
    ensures baseline >= 0
  {
    if |ps| == 0 then FallbackBaseline
    else
      SumBounds(ps, 0, SeqMax(ps));
      Mean(ps)
  }

  /** No sample letter with ink, fallback baseline: an empty font has baseline row 5. */
  lemma EmptyFontBaseline(name: string, f: ScaleFactor)
    ensures FindCommonBaseline(FontData(name, map[]), f) == FallbackBaseline
  {
    var font := FontData(name, map[]);
    var ps := BaselinePositions(font, f);
    assert forall i :: 0 <= i < |SampleChars| ==> SamplePosition(font, f, SampleChars[i]) == -1;
  }

  /**
    Only the sample letters are scaled: a font whose one glyph, "Q", could not
    be halved still has a baseline at factor 0.5, the fallback row.
   */
  lemma NonSampleGlyphNotScaled(name: string)
    ensures !FontScalable(FontData(name, map["Q" := [[Space, Space], []]]), Half)
    ensures FindCommonBaseline(FontData(name, map["Q" := [[Space, Space], []]]), Half) == FallbackBaseline
  {
    var font := FontData(name, map["Q" := [[Space, Space], []]]);
    assert !HalvingDefined(font.characters["Q"]) by {
      assert |font.characters["Q"][1]| < (|font.characters["Q"][0]| / 2) * 2;
    }
    assert forall i :: 0 <= i < |SampleChars| ==> SampleChars[i] !in font.characters;
    EmptyFontBaseline(name, Half);
    assert forall i :: 0 <= i < |SampleChars| ==> SamplePosition(font, Half, SampleChars[i]) == -1;
  }

  /** When every inked sample letter ends on the same row, that row is the baseline. */
  lemma UniformBaseline(font: FontData, f: ScaleFactor, row: int)
    requires SamplesScalable(font, f)
    requires var ps := BaselinePositions(font, f);
      |ps| > 0 && forall i :: 0 <= i < |ps| ==> ps[i] == row
    ensures FindCommonBaseline(font, f) == row
  {
    var ps := BaselinePositions(font, f);
    assert ps[0] == row;
  }

  /**
    analyzeCharacterDescenders: a glyph of no rows reports all zeros; an
    all-blank glyph reports its height as baseline and total height and no
    descender; otherwise the glyph has a descender exactly when some row below
    the baseline has content, the descender height is how far its last
    inked row lies below the baseline (never negative), and the baseline
    height is the baseline row plus one.
   */
  function AnalyzeCharacterDescenders(g: Glyph, baseline: int): (info: DescenderInfo)
    ensures |g| == 0 ==> info == DescenderInfo(false, 0, 0, 0, 0)
    ensures (forall k :: 0 <= k < |g| ==> !RowHasContent(g[k])) ==>
      info == DescenderInfo(false, |g|, 0, |g|, 0)
    ensures (exists k :: 0 <= k < |g| && RowHasContent(g[k])) ==>
      && (info.hasDescender <==> exists k :: baseline < k < |g| && 0 <= k && RowHasContent(g[k]))
      && info.baselineHeight == baseline + 1
      && info.descenderHeight >= 0
      && (info.hasDescender ==> info.descenderHeight > 0)
      && (info.descenderHeight > 0 ==>
            && info.hasDescender
            && 0 <= baseline + info.descenderHeight < |g|
            && RowHasContent(g[baseline + info.descenderHeight])
            && forall k :: baseline + info.descenderHeight < k < |g| ==> !RowHasContent(g[k]))
      && (!info.hasDescender ==> info.descenderHeight == 0)
    ensures info.totalHeight == |g| && info.verticalOffset == 0
    ensures baseline >= -1 ==>
      && (info.hasDescender <==> LastContentRow(g) > baseline)
      && info.descenderHeight == if LastContentRow(g) > baseline then LastContentRow(g) - baseline else 0
  {
    if |g| == 0 then DescenderInfo(false, 0, 0, 0, 0)
    else
      var last := LastContentRow(g);
      if last == -1 then DescenderInfo(false, |g|, 0, |g|, 0)
      else
        var has := last > baseline;
        DescenderInfo(has, baseline + 1, if has then last - baseline else 0, |g|, 0)
  }

  /**
    analyzeDescenderProperties: one entry per character of the font, each
    the analysis of the character's scaled glyph against the font's common
    baseline.
   */
  function AnalyzeDescenderProperties(font: FontData, f: ScaleFactor): (m: map<string, DescenderInfo>)
    requires FontScalable(font, f)
    ensures m.Keys == font.characters.Keys
    ensures forall c :: c in m ==> m[c].totalHeight == |ScaleCharacter(font.characters[c], f)| && m[c].verticalOffset == 0
    ensures forall c :: c in m ==>
      m[c] == AnalyzeCharacterDescenders(ScaleCharacter(font.characters[c], f), FindCommonBaseline(font, f))
  {
    var baseline := FindCommonBaseline(font, f);
    var scaled := ScaledFont(font, f);
    var m := AnalyzeGlyphs(scaled, baseline);
    assert forall c :: c in m ==> m[c] == AnalyzeCharacterDescenders(ScaleCharacter(font.characters[c], f), baseline);
    m
  }

  /** Every glyph of the font scaled by the factor, under the same keys. */
  function ScaledFont(font: FontData, f: ScaleFactor): (scaled: map<string, Glyph>)
    requires FontScalable(font, f)
    ensures scaled.Keys == font.characters.Keys
    ensures forall c :: c in scaled ==> scaled[c] == ScaleCharacter(font.characters[c], f)
  {
    map c | c in font.characters :: ScaleCharacter(font.characters[c], f)
  }

  /**
    Each glyph analysed against one baseline row: a glyph has a descender
    exactly when its last inked row lies below the baseline, by that many rows.
   */
  function AnalyzeGlyphs(glyphs: map<string, Glyph>, baseline: int): (m: map<string, DescenderInfo>)
    ensures m.Keys == glyphs.Keys
    ensures forall c :: c in m ==> m[c] == AnalyzeCharacterDescenders(glyphs[c], baseline)
    ensures forall c :: c in m ==> m[c].totalHeight == |glyphs[c]| && m[c].verticalOffset == 0
    ensures baseline >= -1 ==> forall c :: c in m ==>
      && (m[c].hasDescender <==> LastContentRow(glyphs[c]) > baseline)
      && m[c].descenderHeight == if LastContentRow(glyphs[c]) > baseline then LastContentRow(glyphs[c]) - baseline else 0
  {
    map c | c in glyphs :: AnalyzeCharacterDescenders(glyphs[c], baseline)
  }

  /**
    Every glyph is measured against the one common baseline row: it has a
    descender exactly when its last inked row after scaling lies below that
    row, the descender height is how far below, and a glyph with ink has
    baseline height one more than the common row.
   */
  lemma SharedBaseline(font: FontData, f: ScaleFactor, c: string)
    requires FontScalable(font, f)
    requires c in font.characters
    ensures AnalyzeDescenderProperties(font, f)[c].hasDescender
      <==> LastContentRow(ScaleCharacter(font.characters[c], f)) > FindCommonBaseline(font, f)
    ensures AnalyzeDescenderProperties(font, f)[c].descenderHeight
      == if LastContentRow(ScaleCharacter(font.characters[c], f)) > FindCommonBaseline(font, f)
         then LastContentRow(ScaleCharacter(font.characters[c], f)) - FindCommonBaseline(font, f) else 0
    ensures LastContentRow(ScaleCharacter(font.characters[c], f)) >= 0 ==>
      AnalyzeDescenderProperties(font, f)[c].baselineHeight == FindCommonBaseline(font, f) + 1
  {
    var b := FindCommonBaseline(font, f);
    var scaled := ScaledFont(font, f);
    assert AnalyzeDescenderProperties(font, f) == AnalyzeGlyphs(scaled, b);
    AnalyzedEntry(AnalyzeGlyphs(scaled, b), scaled, b, c, ScaleCharacter(font.characters[c], f));
  }

  /** One entry of an analysis against a non-negative baseline, in terms of the glyph's last inked row. */
  lemma AnalyzedEntry(m: map<string, DescenderInfo>, glyphs: map<string, Glyph>, b: int, c: string, g: Glyph)
    requires m == AnalyzeGlyphs(glyphs, b) && b >= 0
    requires c in glyphs && glyphs[c] == g
    ensures m[c].hasDescender <==> LastContentRow(g) > b
    ensures m[c].descenderHeight == if LastContentRow(g) > b then LastContentRow(g) - b else 0
    ensures LastContentRow(g) >= 0 ==> m[c].baselineHeight == b + 1
  {
    if LastContentRow(g) >= 0 {
      assert RowHasContent(g[LastContentRow(g)]);
    }
  }

  /**
    adjustCharacterForDescenders: a glyph at least maxCharHeight rows tall
    is returned as it is; a shorter one keeps its rows as a prefix and is
    filled with empty rows up to exactly maxCharHeight rows. The descender
    information is not consulted.
   */
  function AdjustCharacterForDescenders(g: Glyph, info: DescenderInfo, maxCharHeight: int): (r: Glyph)
    ensures |g| >= maxCharHeight ==> r == g
    ensures |g| < maxCharHeight ==>
      && |r| == maxCharHeight
      && r[..|g|] == g
      && forall i :: |g| <= i < maxCharHeight ==> r[i] == []
  {
    if |g| >= maxCharHeight then g
    else g + EmptyRows(maxCharHeight - |g|)
  }

  /** The descender record plays no part in the padding. */
  lemma AdjustIgnoresInfo(g: Glyph, info1: DescenderInfo, info2: DescenderInfo, maxCharHeight: int)
    ensures AdjustCharacterForDescenders(g, info1, maxCharHeight) == AdjustCharacterForDescenders(g, info2, maxCharHeight)
  {
  }

  /** Bottom padding is top alignment on a canvas of maxCharHeight rows. */
  lemma AdjustIsTopAlignment(g: Glyph, info: DescenderInfo, maxCharHeight: int)
    ensures AdjustCharacterForDescenders(g, info, maxCharHeight) == ApplyVerticalAlignment(g, maxCharHeight, AlignTop)
  {
    if |g| < maxCharHeight {
      VerticalLayouts(g, maxCharHeight, AlignTop);
    }
  }

  /** Padding a glyph twice to the same height pads it once. */
  lemma AdjustIdempotent(g: Glyph, info: DescenderInfo, maxCharHeight: int)
    ensures var once := AdjustCharacterForDescenders(g, info, maxCharHeight);
      AdjustCharacterForDescenders(once, info, maxCharHeight) == once
  {
  }

  /** Padding adds no ink: the last inked row of a padded glyph is that of the glyph. */
  lemma AdjustKeepsLastContentRow(g: Glyph, info: DescenderInfo, maxCharHeight: int)
    ensures LastContentRow(AdjustCharacterForDescenders(g, info, maxCharHeight)) == LastContentRow(g)
  {
    var r := AdjustCharacterForDescenders(g, info, maxCharHeight);
    if |g| < maxCharHeight {
      var last := LastContentRow(r);
      assert forall k :: |g| <= k < |r| ==> !RowHasContent(r[k]);
      assert last < |g|;
      assert forall k :: 0 <= k < |g| ==> r[k] == g[k];
      LastContentRowUnique(g, last);
    }
  }

  /** The last-content row is the only row with content and nothing inked below it. */
  lemma LastContentRowUnique(g: Glyph, last: int)
    requires -1 <= last < |g|
    requires last >= 0 ==> RowHasContent(g[last])
    requires forall k :: last < k < |g| ==> !RowHasContent(g[k])
    ensures LastContentRow(g) == last
  {
    var l := LastContentRow(g);
  }
}
