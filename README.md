# Polar-area chart visual: a verified model of its bookkeeping

The visual in `src/polarAreaChart.ts` is a Power BI custom visual. It draws a polar-area chart with Chart.js and adds two coloured rings around it:

- an inner band with one sector per category;
- an outer band that groups the categories by "type".

Most of the file is canvas drawing. This project models the deterministic logic inside it, in Dafny, and proves what that logic guarantees:

- **Colour registers.** `getColorForType` and `getColorForCategory` keep append-only lists of the names seen (`uniqueTypes`, `uniqueCategories`). A name's colour is the palette entry at its index modulo the palette length.
  - `updateFormattingProperties` overrides palette slots from the formatting pane.
  - These are modelled as the class `Visual.PolarAreaChart`. The two lists are `seq<string>` fields, and the two palettes are arrays of 10 and 30 slots updated in place.
- **Row transform.** `transformData` works as follows:
  - It fills pre-sized per-category arrays from the value columns. The first measure goes to `value`, later measures to `secondValue`, and the last order column and the last type column win.
  - It returns early if a measure column is longer than the category column.
  - It combines the rows and stably sorts them by order. A missing, NaN or 0 order counts as 0.
  - Modules `Rows` and `StableSort` hold the pure meaning. The imperative pass is `Visual.PolarAreaChart.TransformData`.
- **Colour strings.** `hexToRgba` strips a `#`, expands 3-digit shorthand and parses three hex pairs with `parseInt(_, 16)`. `adjustRgbaAlpha` searches for `rgba?(d, d, d[, a])` and rebuilds the string with a new alpha, or throws.
  - Module `ColorCodec` writes out `parseInt`, number rendering and the regular-expression search.
  - It proves the hex → rgba → re-alpha round trip for valid 3- and 6-digit codes. It also proves two rejections: text with no "r" in it never matches, and a code whose red pair does not parse renders NaN, which does not match either.
- **Ring geometry.** Module `Geometry` covers:
  - the three radii;
  - the sector angles, with `Math.PI` kept as an abstract positive real;
  - where a category label sits and when it is turned over;
  - which colour each ring sector is filled with.
- **Label fitting.** Module `LabelFitting` covers:
  - the available space;
  - the descending font-size search. `measureText` is an uninterpreted width function of text and font size;
  - the split of a label into two lines at `ceil(n/2)` words;
  - the character-by-character truncation of a single word.
- **Type band.** Module `TypeLabels` covers:
  - the `typeAngles` map, built in first-appearance order with start, end and count per type, all by segment index;
  - the radial lines drawn at every change of type;
  - the glyph order of a curved type label, reversed in the lower half.

`Seqs` holds the shared sequence helpers: `indexOf`, the append-if-absent register, occurrence counting and reversal. `Wrappers` holds `Option`.

Three facts about the code that the model keeps:

- The type-label font is `labelRadius / 20` (line 105).
- `drawTypesNames` runs unconditionally. With no type column it reaches `drawTypeLabel` with a `null` label, which throws, so `DrawTypesNames` returns no labels in that case.
- The length guard of lines 511-514 fires exactly when a measure column is longer than the category column, because such a column extends `secondMeasureValues`. `Rows.LengthGuard` proves both directions.

## Model

| member | source | states |
|---|---|---|
| Seqs.IndexOf | src/polarAreaChart.ts:710 | -1 exactly when the name is absent; otherwise the position of its first occurrence |
| Seqs.AppendNewMembers | src/polarAreaChart.ts:710-716 | after the lookups, the register holds exactly the names it held before plus the names looked up |
| Seqs.AppendNewNoDuplicates | src/polarAreaChart.ts:710-716 | a register without duplicates never gains one |
| Seqs.AppendNewIdempotent | src/polarAreaChart.ts:710-716 | looking up the same names a second time leaves the register unchanged |
| Seqs.AppendNewConcat | src/polarAreaChart.ts:710-716 | looking up `xs` and then `ys` registers the same names as looking up `xs + ys` |
| Seqs.SlotIsStable | src/polarAreaChart.ts:710-719 | a registered name keeps its index, and so its palette slot, whatever is registered after it |
| Visual.RepeatedLookup | src/polarAreaChart.ts:707-736 | one lookup grows the register by at most one name; looking up a known name, or the same name twice, changes nothing |
| Visual.ColorIsStable | src/polarAreaChart.ts:719 | a registered name's colour does not change when more names are registered |
| Visual.PolarAreaChart.constructor | src/polarAreaChart.ts:45-85 | empty registers, ten '#fff' type slots, thirty '#d3d3d3' category slots, font 'arial' |
| Visual.PolarAreaChart.GetColorForType | src/polarAreaChart.ts:707-720 | the type is registered if new (append-if-absent) and the result is the palette entry at its index modulo the palette length |
| Visual.PolarAreaChart.GetColorForCategory | src/polarAreaChart.ts:723-736 | the same for categories and the inner palette |
| Visual.PolarAreaChart.TypePass | src/polarAreaChart.ts:498-502 | slot i gets type i, every type is registered, and every slot holds the colour of its type |
| Visual.PolarAreaChart.CategoryPass | src/polarAreaChart.ts:503-507 | every category is registered, and slot i holds its category's colour at alpha 0.5 |
| Visual.PolarAreaChart.RegisterTypes | src/polarAreaChart.ts:564-572 | the type register grows by the names of every column bound to the type role, in column and row order, including measure and order columns that also carry the type role |
| Visual.PolarAreaChart.OverrideTypeSlots | src/polarAreaChart.ts:575-586 | the type palette becomes `TypePalette`: the slot of each registered type is overridden when the pane has that property, and the default is used when its value is not a string |
| Visual.PolarAreaChart.OverrideCategorySlots | src/polarAreaChart.ts:589-600 | the category palette becomes `CategoryPalette`, slot by slot, for the category rows |
| Visual.TypeOverrideReachesType | src/polarAreaChart.ts:575-586 | the k-th registered type is drawn in the colour of `bgColorType{k+1}` when the pane sets it, and in the old colour otherwise |
| Visual.CategoryOverrideReachesCategory | src/polarAreaChart.ts:589-600 | the k-th category is drawn in the colour of `bgColorCategory{k+1}` when the pane sets it for a category row |
| Rows.TypeNamesAreRoleNames | src/polarAreaChart.ts:486-572 | every type name the column pass registers is already registered by the formatting update, which reads all type-role columns |
| Visual.PolarAreaChart.UpdateFormattingProperties | src/polarAreaChart.ts:553-611 | without `outerCircles` nothing changes; with it, types are registered, both palettes overridden and the font set (to 'Arial' when not a string) |
| Visual.PolarAreaChart.ProcessColumn | src/polarAreaChart.ts:487-508 | one value column updates the local arrays as `ScanColumn` says, keeping every colour slot in agreement with the registers |
| Visual.PolarAreaChart.ScanValueColumns | src/polarAreaChart.ts:479-509 | the pre-sized arrays after the column pass are `ScanColumns` of the columns; categories get colours exactly when a type column exists |
| Visual.PolarAreaChart.BuildRows | src/polarAreaChart.ts:479-536 | no result exactly when a measure column is longer than the categories; otherwise the combined rows, stably sorted by order, split into arrays |
| Visual.PolarAreaChart.TransformData | src/polarAreaChart.ts:472-546 | the formatting update followed by the row build, with the resulting registers, palettes and font; with `outerCircles` the type register ends as the old one plus every type-role name, without it as the old one plus the type columns' names |
| Rows.InitialScan | src/polarAreaChart.ts:479-484 | every pre-sized array has the category length and holds only nulls |
| Rows.MeasureAssignment | src/polarAreaChart.ts:486-494 | at each category, `value` is the first non-null measure cell and `secondValue` is the last measure cell after it (null if none) |
| Rows.TypesAndOrder | src/polarAreaChart.ts:495-507 | a category's type is that of the last type column reaching it, the order column is the last one, and colours are filled exactly when a type column exists |
| Rows.LengthGuard | src/polarAreaChart.ts:479-514 | the first-measure array keeps the category length; the second differs from it exactly when some measure column is longer than the categories |
| Rows.OrderKey | src/polarAreaChart.ts:524 | a finite order value is kept; a missing value, NaN and 0 all give 0 |
| Rows.Combine | src/polarAreaChart.ts:517-525 | one segment per category, carrying that category's name, measures, type and order key; it has a colour exactly when a type column exists |
| Rows.Columns | src/polarAreaChart.ts:531-536 | each output array holds field i of segment i |
| StableSort.SortBy | src/polarAreaChart.ts:528 | the sorted rows are a permutation of the input |
| StableSort.SortByIsStable | src/polarAreaChart.ts:528 | ascending by order, a permutation, and rows with equal order keep their relative order |
| StableSort.SortBySortedIdentity | src/polarAreaChart.ts:528 | rows already in order come back unchanged |
| ColorCodec.StripHash | src/polarAreaChart.ts:745 | a leading '#' is removed; text not starting with '#' is unchanged |
| ColorCodec.ExpandShorthand | src/polarAreaChart.ts:748-752 | a 3-character code has each character doubled; other lengths are kept |
| ColorCodec.Substring | src/polarAreaChart.ts:755-757 | the characters from start to end, with an end past the text cut to the text's length and a start past it giving the empty string |
| ColorCodec.ParseIntHexPair | src/polarAreaChart.ts:755-757 | two hex digits parse to their byte value |
| ColorCodec.ChannelsOfCode | src/polarAreaChart.ts:743-757 | a 3- or 6-digit code, with or without '#', gives the byte values of its expanded digit pairs |
| ColorCodec.ShorthandDoublesDigits | src/polarAreaChart.ts:745-752 | "#abc", "abc" and "aabbcc" render the same colour |
| ColorCodec.DecimalRoundTrip | src/polarAreaChart.ts:773-775 | `parseInt(_, 10)` of a rendered natural number gives the number back |
| ColorCodec.AdjustRgbaText | src/polarAreaChart.ts:764-780 | re-alphaing a rendered colour keeps its three channels and replaces its alpha |
| ColorCodec.HexRoundTrip | src/polarAreaChart.ts:743-780 | a valid code rendered at alpha 0.5 and re-alphaed to 1 equals the code rendered at alpha 1 |
| ColorCodec.NoRgbNoMatch | src/polarAreaChart.ts:766-770 | text without "rgb" makes `adjustRgbaAlpha` throw |
| ColorCodec.NaNChannelIsRejected | src/polarAreaChart.ts:755-770 | a code whose red pair does not parse (a colour name, an empty string) renders NaN, which `adjustRgbaAlpha` rejects |
| Geometry.RingsAreNested | src/polarAreaChart.ts:247-249 | inner ≤ outer ≤ full, both bands equally wide, full radius = 9/14 of the smaller side |
| Geometry.SectorsTileCircle | src/polarAreaChart.ts:250-256 | the n sectors are non-empty; each ends where the next starts; together they make the full turn from twelve o'clock |
| Geometry.LabelAtMidSector | src/polarAreaChart.ts:167 | a category label sits half-way through its sector |
| Geometry.LabelInLowerHalf | src/polarAreaChart.ts:167-179 | label i of n is turned over exactly when n < 4i + 2 < 3n |
| Geometry.LabelsReadUpright | src/polarAreaChart.ts:176-179 | every label angle the chart produces gets a rotation within a quarter turn of upright |
| Geometry.FillsFollowSegments | src/polarAreaChart.ts:253-277 | with one stored colour per segment, sector i is filled with segment i's colours |
| Geometry.CategoryFillIsOpaque | src/polarAreaChart.ts:272-277 | a category colour made from a valid code is filled opaque: the same code at alpha 1 |
| Geometry.CategoryFillKeepsUnparsed | src/polarAreaChart.ts:272-277 | a stored colour whose red pair does not parse (so it rendered NaN) falls back to the stored text unchanged |
| LabelFitting.SpaceOfRings | src/polarAreaChart.ts:141-146 | the available space is 27/224 of the smaller side, non-negative and at most the outer radius |
| LabelFitting.AdjustFontSizeForSpace | src/polarAreaChart.ts:148-161 | the result is ≤ max and is max minus k whole pixels; every larger size tried was too wide; either the result fits (first size, or above min), or the search stepped to ≤ min, staying above min − 1 for a positive radius |
| LabelFitting.Split | src/polarAreaChart.ts:190 | at least one piece, none containing a space |
| LabelFitting.JoinSplit | src/polarAreaChart.ts:190-194 | joining the words with spaces gives the label back |
| LabelFitting.SplitJoin | src/polarAreaChart.ts:190-194 | splitting joined space-free words gives the words back |
| LabelFitting.JoinConcat | src/polarAreaChart.ts:193-194 | joining two runs of words is joining each with a space between |
| LabelFitting.WrapKeepsLabel | src/polarAreaChart.ts:189-200 | two lines exactly when the label has a space, and top + " " + bottom is the label; the top line holds ceil(n/2) words, at most one more than the bottom; otherwise the word is the label |
| LabelFitting.TruncateToFit | src/polarAreaChart.ts:200-206 | the drawn word is a prefix of the word that is empty or within fontSize·10, and every longer prefix is too wide |
| LabelFitting.TruncationAgrees | src/polarAreaChart.ts:201-205 | when some prefix fits, the loop as written stops at the same prefix as the corrected one |
| LabelFitting.TruncationAsWrittenDiverges | src/polarAreaChart.ts:201-205 | for a negative font size, the loop as written never stops |
| LabelFitting.TruncationAsWrittenHangs | src/polarAreaChart.ts:201-205 | a concrete width function, word and font size on which it never stops |
| LabelFitting.CategoryText | src/polarAreaChart.ts:189-207 | what is drawn for a category label: the two wrapped lines, or the word truncated as above |
| TypeLabels.GroupTypes | src/polarAreaChart.ts:215-232 | one map entry per distinct type, in first-appearance order; each entry's start is the type's first index, its end is one past its last and its count is its number of occurrences; the lines are `Dividers` |
| TypeLabels.SpansOfAt | src/polarAreaChart.ts:223-227 | the map built segment by segment holds exactly the types seen, each with its first index, last index + 1 and count |
| TypeLabels.DividersAreChanges | src/polarAreaChart.ts:228-231 | a line is drawn at i exactly when types[i] differs from the previous type (null before the first); each at most once, in increasing order |
| TypeLabels.TwoGroupsTwoDividers | src/polarAreaChart.ts:228-231 | A, A, A, B, B draws lines at 0 and 3 |
| TypeLabels.OneDividerPerGroup | src/polarAreaChart.ts:228-231 | contiguous groups of non-null types draw one line per distinct type |
| TypeLabels.TypeLabelInLowerHalf | src/polarAreaChart.ts:234-236 | the label of a type over segments [start, end) is reversed exactly when n < 2(start + end) < 3n |
| TypeLabels.SingleSegmentLabel | src/polarAreaChart.ts:235 | a one-segment type's label sits where that segment's category label does |
| TypeLabels.GlyphsAreSymmetric | src/polarAreaChart.ts:96 | glyphs i and len−1−i lie symmetrically about the same angle |
| TypeLabels.Text | src/polarAreaChart.ts:115-119 | the drawn text holds one character per glyph |
| TypeLabels.DrawTypeLabel | src/polarAreaChart.ts:89-122 | the glyph text is the reversed label in the lower half and the label otherwise; each glyph has its angle, rotation and font size |
| TypeLabels.DrawLabels | src/polarAreaChart.ts:234-237 | no labels exactly when a key is null; otherwise one label per key, whose text is reversed or not according to the half in which the middle angle of its entry lies |
| TypeLabels.DrawTypesNames | src/polarAreaChart.ts:212-238 | the lines at every type change; the labels fail exactly when some type is null; otherwise each distinct type's text is reversed or not according to the half its middle angle lies in |

## Left out

- Canvas output is not modelled: arcs, fills, strokes, `fillText`, `save`/`restore`, `translate`/`rotate`, and the `cos`/`sin` placement of points. It is rendering with floating-point trigonometry. Angles and rotations are modelled as reals, up to the call that would draw them.
- `ctx.measureText` is a width parameter `width(text, fontSize)`. The font family is fixed during a search, and no font metrics are modelled.
- `Math.PI` is an abstract positive real, and all arithmetic is exact over the reals. IEEE rounding is not modelled.
- JavaScript strings are UTF-16 code-unit sequences. Here they are `seq<char>`, so `length`, `substring` and `split` act on characters.
- Chart.js construction, `chart.update()`, the `update` method, `Math.round` of the values (line 457), `drawSecondMeasureLines`, `drawAngleLine`'s coordinates, the `categoryName` lookup and `getFormattingModel` are not modelled. These are host and library plumbing or floating-point display code.
- `update` reads fields of the transform's result even when the length guard made it return `undefined`. The model returns `None` there and does not model the dereference.
- The scratch arrays `colorsType` and `types_temp` of `updateFormattingProperties` are never read, so only the type registrations they cause are modelled. The `this[propName]` mirror fields are not modelled separately from the palette slot each one is copied into.
- Override slots exist only for the declared properties: `bgColorType1`..`10` and `bgColorCategory1`..`30`. JavaScript would grow a palette array if assigned past its end, and that is not modelled: the model's override maps are keyed by those slots only.
- Visual.PolarAreaChart.OverrideTypeSlots assumes every colour property in the pane has a `solid` member. Line 579 reads `bgColorPropertyValue['solid']['color']`, which throws when `solid` is missing. The model instead treats any value that is not a string as `OtherValue` and uses the default colour `#fff`.
- Visual.PolarAreaChart.OverrideCategorySlots makes the same assumption for line 593. Where the source would throw, the model uses the default `#d3d3d3`.
- Rows.ValueColumn: a measure or order column that also carries the type role holds its type names (the `String(value)` of its cells) in a separate field. The model does not derive those names from the cells, because it does not model JavaScript's number-to-string rendering.
- Only one dataset is modelled. The chart is built with exactly one, so `previousType` never carries over between datasets.
- LabelFitting.AdjustFontSizeForSpace: the number of decrements is a ghost out-parameter. The source keeps no counter.
- LabelFitting.TruncateAsWritten: the loop as written is a function with a bound on its passes ("fuel"), returning `None` when the bound runs out. Dafny functions must terminate, and that loop does not always.

## Findings

| source | as written | input that shows it | evidently intended | confidence | as-written member | corrected member |
|---|---|---|---|---|---|---|
| src/polarAreaChart.ts:203-205 | the single-word truncation loop runs while `measureText(word).width > fontSize * 10`. On the empty word `substring(0, -1)` is again the empty word, so the loop stops only if some prefix fits | a chart area whose smaller side is 35 px gives outerRadius 20, a largest font size of 0.8 and a smallest of 0.5. A one-word label too wide at 0.8 px makes the search return −0.2. With fontSize −0.2 the limit is −2, which no width (≥ 0) meets, so the loop never ends and the page hangs | stop shortening at the empty word | not executed; follows from the proved lemmas together with the font search's postcondition | LabelFitting.TruncationAsWrittenDiverges | LabelFitting.TruncateToFit |
