# ansifonts geometric pipeline in Dafny

This project models the pure core of the `ansifonts` block-art font renderer.
A glyph is a sequence of rows of runes, drawn from the full block `█`, the
upper and lower half blocks `▀` `▄` and the space. Each rune stands for a
vertical pair of pixels.

The model covers three stages:

- **Half-block packing and scaling** (`ansifonts/scaling.go`): `glyphs.dfy`, `packing.dfy` and `scaling.dfy`.
  - A glyph is unpacked into a binary pixel matrix, two pixel rows per glyph row.
  - The matrix is scaled: replicated by 2 or 4, or OR-pooled in 2×2 blocks for the factor 0.5.
  - The result is packed back into half-block runes.
- **Canvas alignment** (`ansifonts/alignment.go:7-78`): `alignment.dfy`. Vertical padding with empty lines, and horizontal padding with spaces. Line width is measured in UTF-8 bytes, as Go's `len` measures it.
- **Baseline and descenders** (`ansifonts/alignment.go:80-219`): `descenders.dfy`.
  - The font-wide baseline is the truncated mean of the last inked row of up to eight sample letters, with a fallback of row 5.
  - Each glyph gets a `DescenderInfo` record.
  - Glyphs are bottom-padded to a common height.
- **Collision-based kerning** (`ansifonts/kerning.go`): `kerning.dfy`.
  - Both glyphs are normalised to a common height, each glyph's rows padded with spaces to its own widest row.
  - The ink cells of the left glyph are collected.
  - Each ink cell of the right glyph, shifted by a trial spacing, is probed with a weighted 8-neighbourhood score.
  - The spacing is chosen from {-1, 0, +1}.

Strings are modelled as sequences of decoded runes (`seq<char>`). Go's byte length appears only where the source uses `len` on a string, and there it is computed explicitly (`Alignment.Utf8Len`).

The float scale factor becomes the datatype `ScaleFactor = Half | One | Two | Four | Other`.

The float x coordinates of the kerning test are only ever whole or half columns. They are kept doubled as integers: `abs(ax - bx) < 1.0` becomes `|2ax - 2bx| < 2`.

`FontData`, `DescenderInfo` and `pixelCoord` are declared in a file that is not part of this model. They are reconstructed from how the core uses them.

Two statements about kerning are settled by the code, not by its comments:

- The comment at `ansifonts/kerning.go:159-160` says the chosen spacing keeps glyphs from touching "even by corners". The test tolerates up to two vertical or diagonal neighbours. `Kerning.VerticalTouchTucks` exhibits a pair of glyphs whose blocks share an edge at the chosen spacing.
- A glyph made only of spaces has a non-zero width, so `computeKerning` does not take its zero-width exit. Against any right glyph with width, it returns -1, not 0 (`Kerning.BlankLeftGlyphTucks`).

## Model

| member | source | states |
|---|---|---|
| Packing.Unpack | ansifonts/scaling.go:9-49 | unpacking gives exactly 2·H pixel rows; row k is the top (k even) or bottom (k odd) pixel row of glyph row k/2, as wide as that row has runes, so an empty glyph row leaves two empty pixel rows |
| Packing.UnpackIsBinary | ansifonts/scaling.go:27-42 | every unpacked pixel is 0 or 1 |
| Packing.Pack | ansifonts/scaling.go:52-97 | packing yields at most ceil(H/2) rows and only the four block runes |
| Packing.Cell | ansifonts/scaling.go:81-90 | a pixel pair becomes a block rune: `█` iff (1,1), `▀` iff (1,0), `▄` iff (0,1), any other pair a space; a binary pair is recovered by unpacking the rune |
| Packing.PackPair | ansifonts/scaling.go:69-91 | a packed row is as wide as its top pixel row and holds block runes only; each binary pair is recovered bit by bit, and columns past the end of the bottom row have the lower half off |
| Packing.CellOfBits | ansifonts/scaling.go:28-41 | the cell table: `█`↔(1,1), `▀`↔(1,0), `▄`↔(0,1), each iff; repacking a rune's pixel pair gives the rune back, any other rune as a space |
| Packing.BitsOfCell | ansifonts/scaling.go:82-90 | a binary pixel pair survives packing into a rune and unpacking again |
| Packing.PackPairOfRow | ansifonts/scaling.go:69-91 | packing a glyph row's own pixel pair gives the row with unrecognised runes turned into spaces |
| Packing.PackUnpack | ansifonts/scaling.go:9-97 | round trip: pack(unpack(g)) is g with its zero-width rows dropped and unrecognised runes replaced by spaces |
| Packing.RoundTrip | ansifonts/scaling.go:9-97 | pack(unpack(g)) == g when no row is empty and every rune is one of the four block runes |
| Packing.UnpackPack | ansifonts/scaling.go:9-97 | the reverse round trip: unpack(pack(b)) == b for a binary matrix of equal-width, non-empty row pairs |
| Packing.RowsOfPackedPair | ansifonts/scaling.go:70-90 | unpacking the rune row packed from an equal-width binary pixel pair gives the pair back |
| Packing.PackOfDoubledRows | ansifonts/scaling.go:82-90 | a binary matrix whose rows come in equal pairs packs to full blocks and spaces only |
| Packing.PackRows | ansifonts/scaling.go:58-94 | when every even pixel row is non-empty, packing gives ceil(H/2) rows and row p is the packed pair (2p, 2p+1), the last row of an odd-height matrix packed against no bottom row |
| Scaling.Stretch | ansifonts/scaling.go:143-158 | repeating every element k times in place: k·n elements, element j equal to source element j/k |
| Scaling.Upscale | ansifonts/scaling.go:141-159 | k·H rows; row i is k times as wide as source row i/k; `out[i][j] == in[i/k][j/k]` |
| Scaling.RowHasOn | ansifonts/scaling.go:179-184 | the inner pooling loop finds an on pixel iff some column of the range below the width is on |
| Scaling.BlockHasOn | ansifonts/scaling.go:178-188 | the block scan finds an on pixel iff some in-range pixel of the block is on |
| Scaling.PooledCell | ansifonts/scaling.go:177-189 | a pooled pixel is 0 or 1, and 1 iff some pixel of its k×k source block is on |
| Scaling.Downscale | ansifonts/scaling.go:160-193 | floor(H/k) × floor(W/k) binary result, W the width of row 0, each cell on iff its block has an on pixel; `[[0]]` when either dimension floors to 0 |
| Scaling.ScaleBitmap | ansifonts/scaling.go:131-197 | unchanged for an empty matrix, an empty first row, or factor 0 or 1; upscaled for factors above 1; downscaled by the magnitude for negative factors |
| Scaling.ScaleCharacter | ansifonts/scaling.go:100-128 | the glyph is returned unchanged for factor 1.0, an empty glyph or an unsupported factor; otherwise the result uses only the four block runes |
| Scaling.UpscaledHeight | ansifonts/scaling.go:132-159 | with a non-empty first row, enlarging the unpacked glyph by k gives k·2H pixel rows |
| Scaling.UpscaledRow | ansifonts/scaling.go:141-159 | enlarged pixel row i is k times as wide as glyph row (i/k)/2, and its pixel j is the glyph's pixel (i/k, j/k) |
| Scaling.UpscaledPixels | ansifonts/scaling.go:141-159 | the enlarged pixel matrix replicates every unpacked pixel k times in both directions |
| Scaling.ReplicatedPairs | ansifonts/scaling.go:152-157 | a replicated matrix has an even row count and its rows come in equal pairs |
| Scaling.ReplicatedRow | ansifonts/scaling.go:69-91 | the rune row packed from a replicated pair has k runes per glyph rune, each a full block on an on pixel and a space otherwise |
| Scaling.PackReplicated | ansifonts/scaling.go:58-94 | packing a replication of a glyph with no empty row gives k rows per glyph row, each an enlarged row |
| Scaling.UpscaledGlyph | ansifonts/scaling.go:100-128 | scaleCharacter by 2 or 4 of a glyph with no empty row: k·H rows, row i k times as wide as glyph row i/k, each cell a full block iff the replicated pixel is on |
| Scaling.UpscaledGlyphHasNoHalfBlocks | ansifonts/scaling.go:117-159 | after scaling by 2 or 4 with a non-empty first row, every rune is a full block or a space |
| Scaling.EmptyFirstRowIsNotScaled | ansifonts/scaling.go:132-134 | an empty first glyph row makes scaling a plain repack: empty rows dropped, runes canonicalised |
| Scaling.HalvedGlyphShape | ansifonts/scaling.go:160-193 | halving a glyph whose first row has at least two runes gives ceil(H/2) rows of floor(W/2) runes |
| Scaling.HalvedSingleColumn | ansifonts/scaling.go:169-171 | halving a glyph whose first row has one rune gives a single space |
| Scaling.HalvedRows | ansifonts/scaling.go:58-94 | packing a rectangular matrix of non-empty rows gives ceil(H/2) rows of the same width |
| Scaling.HalvingIsOrPooling | ansifonts/scaling.go:174-191 | factor -2 is 2×2 OR-pooling: a pixel is on iff one of the four source pixels (2i..2i+1, 2j..2j+1) is on |
| Alignment.Utf8Len | ansifonts/alignment.go:59 | the byte length of a line lies between its rune count and four times it |
| Alignment.Utf8LenIsCountIffAscii | ansifonts/alignment.go:59 | byte length equals rune count iff every rune is ASCII |
| Alignment.BlockRowBytes | ansifonts/alignment.go:59 | a row of block runes takes one byte per space and three per block |
| Alignment.TopPadding | ansifonts/alignment.go:37-47 | the empty lines above the block never exceed the spare lines, and centring leaves the odd line below |
| Alignment.ApplyVerticalAlignment | ansifonts/alignment.go:32-55 | lines unchanged when at least canvasHeight tall; otherwise exactly canvasHeight rows, the lines from row TopPadding on, every other row empty |
| Alignment.VerticalBlock | ansifonts/alignment.go:37-51 | the padded block is TopPadding empty rows, the lines, then the remaining empty rows |
| Alignment.PlacedBlock | ansifonts/alignment.go:49-52 | rows holding the lines at an offset and empty rows elsewhere are the lines framed by empty rows |
| Alignment.VerticalLayouts | ansifonts/alignment.go:37-54 | top (and any other value) pads below, bottom pads above, middle puts floor(p/2) above and the rest, equal or one more, below |
| Alignment.LeftPadding | ansifonts/alignment.go:64-75 | the spaces before the line never exceed the spare columns |
| Alignment.RightPadding | ansifonts/alignment.go:64-75 | the spaces after the line are never negative; for a named alignment left and right padding share out all spare columns, and centring puts the odd column on the right |
| Alignment.PaddedLayout | ansifonts/alignment.go:77 | padding adds one cell and one byte per space and keeps the line in place between the spaces |
| Alignment.PadToWidth | ansifonts/alignment.go:59-77 | measured width at or over the canvas returns the line; below it, the shortfall is split into leading and trailing spaces by the alignment |
| Alignment.ApplyHorizontalAlignment | ansifonts/alignment.go:58-78 | a line of at least canvasWidth bytes is returned as it is; otherwise it is surrounded by spaces and, for the three named alignments, is exactly canvasWidth bytes long |
| Alignment.HorizontalSplit | ansifonts/alignment.go:64-77 | left puts every space after the line, right every space before it, centre floor(p/2) before and the rest, equal or one more, after |
| Alignment.AlignedIsPadded | ansifonts/alignment.go:64-77 | a short line becomes LeftPadding spaces, the line, RightPadding spaces |
| Alignment.PaddedCellWidth | ansifonts/alignment.go:59-77 | a padded line is short of canvasWidth cells by the extra bytes its multi-byte runes take |
| Alignment.AlignHorizontalCells | ansifonts/alignment.go:58-78 | corrected alignment measuring cells: a padded line is exactly canvasWidth runes wide |
| Alignment.CellsAgreeOnAscii | ansifonts/alignment.go:59 | on ASCII lines the corrected and the as-written alignment coincide |
| Alignment.CenteringBlockCountsBytes | ansifonts/alignment.go:59-62 | `[█]` centred on width 3 comes back unpadded as written, while the cell measure centres it as ` █ ` |
| Descenders.LastContentRow | ansifonts/alignment.go:109-122 | the lowest row with a non-space rune, and no row below it has one; -1 when there is none |
| Descenders.LastContentRowUnique | ansifonts/alignment.go:109-122 | a row with content and nothing inked below it is the last-content row |
| Descenders.SamplePosition | ansifonts/alignment.go:104-122 | a sample letter missing from the font has position -1 |
| Descenders.SamplePositions | ansifonts/alignment.go:100-106 | one position per sample letter, in the order a, e, o, x, n, m, s, c |
| Descenders.InkedRows | ansifonts/alignment.go:124-126 | as a multiset the result is the non-negative positions with their multiplicities, negative ones dropped; it is empty iff every position is negative |
| Descenders.InkedMembers | ansifonts/alignment.go:124-126 | a value is kept iff it is a non-negative position |
| Descenders.BaselinePositions | ansifonts/alignment.go:98-128 | a row is collected iff it is the non-negative last-content row of some sample letter's scaled glyph, as often as sample letters end on it |
| Descenders.Mean | ansifonts/alignment.go:135-140 | the truncated mean lies between the least and the greatest value, and for a non-negative sum m·n <= sum < (m+1)·n |
| Descenders.TruncatedQuotient | ansifonts/alignment.go:140 | Go's truncating quotient of a value between n·lo and n·hi lies between lo and hi, and is the floor for a non-negative value |
| Descenders.MeanOrFallback | ansifonts/alignment.go:130-140 | row 5 for no positions, else their mean rounded down; never negative for non-negative positions |
| Descenders.FindCommonBaseline | ansifonts/alignment.go:98-141 | row 5 when no sample letter has ink, otherwise the collected positions' mean rounded down (b·n <= sum < (b+1)·n), between the least and greatest of them; never negative |
| Descenders.EmptyFontBaseline | ansifonts/alignment.go:131-133 | a font without characters has baseline row 5 |
| Descenders.NonSampleGlyphNotScaled | ansifonts/alignment.go:103-106 | only sample letters are scaled: a font whose only glyph `Q` = `["  ", ""]` cannot be halved still gets the fallback baseline at factor 0.5 |
| Descenders.UniformBaseline | ansifonts/alignment.go:135-140 | when every collected position is the same row, that row is the baseline |
| Descenders.AnalyzeCharacterDescenders | ansifonts/alignment.go:144-190 | all zeros for no rows; height as baseline and total for a blank glyph; otherwise a descender iff a row below the baseline has content, its height the distance of the last inked row below the baseline and positive exactly when there is a descender, baseline height baseline+1. For a baseline of at least -1, that is: a descender iff the last inked row lies below the baseline, and 0 depth otherwise. |
| Descenders.AnalyzeDescenderProperties | ansifonts/alignment.go:81-95 | exactly the font's characters as keys. Each entry is the single-glyph analysis of its scaled glyph against the common baseline, so it has that glyph's height and offset 0. Its baseline height is 0 for a glyph with no rows, the glyph's height for a blank glyph, and the common baseline plus one otherwise. It has a descender iff the last inked row lies below the baseline, by that many rows. |
| Descenders.AnalyzeGlyphs | ansifonts/alignment.go:88-92 | every entry is the single-glyph analysis of its glyph against one baseline row: a descender iff its last inked row lies below it, by that many rows |
| Descenders.AnalyzedEntry | ansifonts/alignment.go:88-92 | against a non-negative baseline, an entry's descender flag, depth and (for an inked glyph) baseline height follow from the glyph's last inked row |
| Descenders.SharedBaseline | ansifonts/alignment.go:85-91 | every glyph is measured against the one common baseline. It descends iff its last inked row after scaling lies below it, by that many rows. An inked glyph has baseline height one more than the common row. |
| Descenders.AdjustCharacterForDescenders | ansifonts/alignment.go:193-219 | a glyph at least maxCharHeight tall is returned as it is; a shorter one is a prefix of exactly maxCharHeight rows, the rest empty |
| Descenders.AdjustIgnoresInfo | ansifonts/alignment.go:193-219 | the descender record does not affect the result |
| Descenders.AdjustIsTopAlignment | ansifonts/alignment.go:193-219 | bottom padding equals top vertical alignment on a canvas of maxCharHeight rows |
| Descenders.AdjustIdempotent | ansifonts/alignment.go:198-200 | padding an already padded glyph changes nothing |
| Descenders.AdjustKeepsLastContentRow | ansifonts/alignment.go:209-216 | padding adds no ink: the last inked row is unchanged |
| Kerning.RuneAt | ansifonts/kerning.go:10-22 | (s[x], true) for a column of the row; (' ', false) otherwise, negative columns included |
| Kerning.MaxRowLen | ansifonts/kerning.go:26-32 | the widest row's rune count: at least every row's and equal to some row's; 0 for no rows |
| Kerning.PadRight | ansifonts/kerning.go:46-49 | the row followed by spaces up to the width |
| Kerning.NormalRow | ansifonts/kerning.go:43-54 | a normalised row is w runes: the glyph row then spaces, or all spaces below the glyph |
| Kerning.NormalizeGlyph | ansifonts/kerning.go:36-57 | exactly `height` rows, each maxRowLen(g) runes; row i is g[i] padded with spaces; rows past the glyph are spaces |
| Kerning.NormalizeKeepsWidth | ansifonts/kerning.go:36-57 | normalising to a positive height keeps the glyph's width |
| Kerning.ActivePixels | ansifonts/kerning.go:61-73 | (x, y) is ink iff x is a column of row y and its rune is neither space nor NUL |
| Kerning.Weight | ansifonts/kerning.go:139-142 | every hit weighs at least 1, and exactly 3 iff it is a horizontal neighbour (same row, other column) |
| Kerning.NeighbourWeights | ansifonts/kerning.go:121-142 | eight distinct neighbour offsets, of which only the left and right ones weigh 3 |
| Kerning.NeighbourOffsets | ansifonts/kerning.go:121-126 | the offsets are exactly the steps of at most one in each direction other than (0, 0) |
| Kerning.ConflictCount | ansifonts/kerning.go:120-145 | the adjacency score is 3 per ink cell near the left or right neighbour plus 1 per ink cell near each of the six neighbours above and below; never negative, 0 without ink |
| Kerning.CollisionNeedsNearbyInk | ansifonts/kerning.go:106-152 | a colliding probe has an ink cell of A within one row and less than two columns of it |
| Kerning.HitIsNearby | ansifonts/kerning.go:130-139 | a hit at a neighbour of the probe is within one row and two columns of the probe |
| Kerning.HalfPixelIffParitiesDiffer | ansifonts/kerning.go:88-89 | the half-pixel adjustment applies iff exactly one of the two heights is odd |
| Kerning.ProbeX2 | ansifonts/kerning.go:99-105 | the probe's column is widthA + spacing + x, plus a half column exactly in B's lower half when adjusted |
| Kerning.ScanRow | ansifonts/kerning.go:92-153 | scanning a row of B reports a hit iff some ink cell from the start column on collides |
| Kerning.ScanRows | ansifonts/kerning.go:91-154 | scanning B's rows reports a hit iff some ink cell of those rows collides |
| Kerning.CheckCollision | ansifonts/kerning.go:84-157 | a collision iff some ink cell of B, placed at widthA + spacing + x (half a column more in B's lower half on an odd height difference), overlaps A's ink or scores 3 or more |
| Kerning.RowNeighbourCollides | ansifonts/kerning.go:108-151 | an ink cell of A in the probe's row within one column of the probe or of its horizontal neighbours forces a collision, since such a hit alone weighs 3 |
| Kerning.NoCollisionKeepsRowsApart | ansifonts/kerning.go:108-151 | with no collision, every ink cell of A in the row of an ink cell of B is at least two columns from its probe |
| Kerning.TwoTouchesTolerated | ansifonts/kerning.go:120-152 | with nothing near in its own row, a probe touching at most two vertical or diagonal neighbours does not collide |
| Kerning.TouchBelowTolerated | ansifonts/kerning.go:120-152 | a probe directly below a lone ink cell scores 1 and does not collide |
| Kerning.ComputeKerning | ansifonts/kerning.go:161-189 | the result is in {-1, 0, 1}; 0 when either glyph has no width; otherwise -1 iff no collision at -1, 0 iff a collision at -1 and none at 0, 1 iff collisions at both |
| Kerning.KerningIsLeastSafe | ansifonts/kerning.go:174-188 | every trial spacing below the chosen one collides, and a chosen spacing below 1 does not |
| Kerning.InkBelowWidth | ansifonts/kerning.go:26-32 | every ink cell lies in one of the glyph's rows and left of its widest row's width |
| Kerning.InkCellsApart | ansifonts/kerning.go:108-151 | on whole cells, an ink cell of B and an ink cell of A in the same row are at least two columns apart when the collision test passes at that spacing, or when the spacing is positive |
| Kerning.KerningNeverOverlaps | ansifonts/kerning.go:161-189 | at the spacing computeKerning picks, including the +1 fallback, every ink cell of the right glyph is at least two columns from every ink cell of the left glyph in the same row, so no two ink cells overlap |
| Kerning.KerningProbesWholeCells | ansifonts/kerning.go:167-172 | after normalising to the common height no half-pixel offset applies, the left glyph keeps its width, and every probe column computed with that adjustment is whole |
| Kerning.NormalizedBlankHasNoInk | ansifonts/kerning.go:36-73 | a glyph of background runes has no ink after normalisation |
| Kerning.NoInkNoCollision | ansifonts/kerning.go:84-157 | a left glyph without ink never collides |
| Kerning.BlankLeftGlyphTucks | ansifonts/kerning.go:161-180 | a left glyph of spaces with width gives spacing -1 against any right glyph with width |
| Kerning.VerticalTouchTucks | ansifonts/kerning.go:159-180 | a block over a blank row, followed by a blank row over a block, gets spacing -1 although the two blocks then share an edge |

## Left out

- Font loading, rendering, colours and the example programs (`ansifonts/loader.go`, `ansifonts/renderer.go`, `ansifonts/colors.go`, `cmd/bit/main.go`, `ansifonts/examples/main.go`): file-system and terminal I/O, embedded files, JSON decoding and constant tables.
- The types file that declares `FontData`, `DescenderInfo` and `pixelCoord` is not part of this model. Those types are reconstructed from their use.
- Floating point. The scale factor is the enum `ScaleFactor`, and every float other than 0.5, 1, 2 and 4 is `Other`. Kerning x coordinates are doubled integers, which is exact, because they are only ever whole or half columns.
- Go map iteration order in `analyzeDescenderProperties` and `getActivePixels`. The results are a Dafny `map` and `set`, on which the order has no effect.
- Invalid UTF-8. Lines are sequences of decoded runes, so the replacement rune that Go's range loop yields for bad bytes has no counterpart.
- Alignment values outside the three named constants are the variants `OtherVertical` and `OtherHorizontal`. Like the source's switch, they add no padding.
- `firstContentRow` in `analyzeCharacterDescenders` (`ansifonts/alignment.go:152-166`) is computed and never used, so it is not modelled.
- Checks the source makes that cannot fire are not modelled as branches:
  - `len(binary) <= y` inside the packing loop (`ansifonts/scaling.go:59-61`);
  - the empty unpacked matrix in `scaleCharacter` (`ansifonts/scaling.go:119-121`);
  - `downscaleBy == 0` (`ansifonts/scaling.go:162-164`);
  - `paddingNeeded <= 0` (`ansifonts/alignment.go:204-206`).
- Scaling.Downscale: requires `DownscaleDefined`, meaning every source row in the pooled area is at least as wide as the pooled columns. The source indexes those rows guarded only by the width of row 0 (`ansifonts/scaling.go:180`), so a shorter row panics when the scan reaches one of its missing columns. The precondition is sufficient, not necessary: the scan stops at the first on pixel of a block (`ansifonts/scaling.go:178-187`), so a short row after it is never read. `["██", "▀"]` halves without a panic in the source but is outside the model.
- Scaling.ScaleBitmap: for a negative factor, requires `DownscaleDefined` like `Scaling.Downscale`, with the same gap. A bitmap with a short row that the scan's early exit never reads is scaled by the source but is outside the model.
- Scaling.ScaleCharacter: for the factor 0.5, requires `HalvingDefined`: every glyph row is at least as wide as the even part of the first row's width. This is the glyph-level form of `DownscaleDefined`, with the same gap. `["██", "▀"]` is halved by the source but excluded here.
- Descenders.FindCommonBaseline: requires `SamplesScalable`, meaning `Scaling.ScaleCharacter`'s precondition holds for each sample letter present in the font. So it inherits that gap for those eight letters only. The same holds for `Descenders.SamplePosition`, `Descenders.SamplePositions` and `Descenders.BaselinePositions`. `Descenders.AnalyzeDescenderProperties` scales every glyph (`ansifonts/alignment.go:88-89`) and so requires the precondition for all of them (`FontScalable`).
- Kerning.NormalizeGlyph: `height` is a `nat`, because Go's `make` panics on a negative length.
- Scaling.UpscaledGlyph: stated for glyphs with no empty row. An empty first row turns scaling off (`Scaling.EmptyFirstRowIsNotScaled`). A later empty row unpacks to two empty pixel rows and is enlarged to k empty pairs, which packing drops (`ansifonts/scaling.go:63-66`), so every later glyph row's enlargement moves up by k rows. The shape of such a result is not stated; `Scaling.UpscaledGlyphHasNoHalfBlocks` still covers its rune set.
- Go's fixed-width `int` overflow is not modelled. Every quantity here is bounded by a glyph's or a canvas's size.

## Findings

| source | as written | input that shows it | evidently intended | confidence | as-written member | corrected member |
|---|---|---|---|---|---|---|
| ansifonts/alignment.go:59 | the line width is `len(line)`, which counts UTF-8 bytes, and every block rune takes three bytes | `[█]` centred on canvas width 3: its three bytes already reach the width, so the line is returned one cell wide and not centred; wider lines are padded short by two cells per block | the width of a line in terminal cells, its rune count, so the padded line is canvasWidth cells wide | medium; not executed | Alignment.CenteringBlockCountsBytes | Alignment.AlignHorizontalCells |
