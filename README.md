# Profile banner and README generators, modelled in Dafny

The 45ck profile repository keeps its GitHub profile page current with three
Node scripts. This project models the logic inside them and proves what
that logic promises.

- **`scripts/generate-banner-gif.mjs`** renders a 1200×300 animated banner.
  - Each frame is drawn by a small software rasteriser into a flat RGB byte
    buffer: 3 bytes per pixel, row-major.
  - The rasteriser offers bounds-checked pixel writes and alpha blending, a
    thick Bresenham line, a clipped rectangle fill and a faint "tactical"
    HUD grid.
  - Each frame is written as a binary PPM (P6) file named `frameNNN.ppm`.
  - Module `Raster` (`raster.dfy`). The buffer is a Dafny `array<byte>`, and
    every drawing routine is a `method` proved against a function of the
    buffer's old contents.
- **`scripts/update-readme.mjs`** regenerates the profile README.
  - It pages through the owner's repositories and keeps only the public
    ones.
  - It sorts them newest push first and splits them into "active" and
    "inactive" at a cutoff date.
  - It renders each group as a GitHub Flavored Markdown table and
    substitutes the tables and a timestamp into `README.template.md`.
  - Module `Readme` (`readme.dfy`).
- **`scripts/iterate-banner-3d.mjs`** renders several banner variants.
  - It scores each still by its brightness statistics and ranks the
    variants.
  - It writes an HTML gallery with escaped text and the best variant
    highlighted.
  - Module `Gallery` (`gallery.dfy`).

Three supporting modules model the JavaScript built-ins the scripts rely on:

- `Text` (`text.dfy`) covers `join`/`split`, `trim`, `String.prototype.replace`
  (first occurrence, with its `$` patterns), `replaceAll`, `padStart`,
  number-to-string and character (code point) string order.
- `StableSort` (`stable_sort.dfy`) covers `Array.prototype.sort`.
  ECMAScript requires this sort to be stable. It is modelled as an in-place
  insertion sort on an array, proved equal to a functional stable sort.
- `Wrappers` (`wrappers.dfy`) provides `Option`, which stands for a missing,
  `null` or `undefined` field.

Conventions:

- Pixel channels, alpha and luminance are exact reals.
- `Math.round(x)` is `⌊x + 0.5⌋`.
- Storing a number into a Node `Buffer` keeps it modulo 256 (`ToUint8`).
- Timestamps are ISO 8601 strings in the API's fixed UTC format. Comparing
  them as dates is therefore the same as comparing them as strings.

## Model

| member | source | states |
|---|---|---|
| Raster.ToUint8 | scripts/generate-banner-gif.mjs:46-48 | a value stored into a buffer byte is kept unchanged when it is in 0..255 and otherwise reduced modulo 256 |
| Raster.Round | scripts/generate-banner-gif.mjs:37-39 | `Math.round`: the result is within half a unit of x, halves rounded up |
| Raster.Clamp01 | scripts/generate-banner-gif.mjs:23-25 | the result is in [0,1]; identity on [0,1]; 0 below, 1 above |
| Raster.Lerp | scripts/generate-banner-gif.mjs:27-29 | lerp at t=0 is a and at t=1 is b |
| Raster.LerpBetween | scripts/generate-banner-gif.mjs:27-29 | for t in [0,1] lerp stays between its two end points |
| Raster.MixIsLerp | scripts/generate-banner-gif.mjs:55-57 | the blend formula `v*(1-a) + c*a` is lerp from v to c |
| Raster.RoundBetween | scripts/generate-banner-gif.mjs:37-39 | rounding a value between two integers stays between them |
| Raster.LerpColor | scripts/generate-banner-gif.mjs:35-41 | lerpColor(a,b,0) is a and lerpColor(a,b,1) is b, after rounding each channel |
| Raster.LerpColorBytes | scripts/generate-banner-gif.mjs:35-41 | mixing two byte colours with t in [0,1] gives a byte colour whose every channel lies between the two inputs' channels |
| Raster.LerpRoundBetween | scripts/generate-banner-gif.mjs:37-39 | one rounded channel of lerpColor lies between the two input channels |
| Raster.OffsetPixel | scripts/generate-banner-gif.mjs:45 | for an in-bounds pixel, bytes `(y*W+x)*3 + k`, k<3, lie in the buffer and map back to (x,y) and channel k |
| Raster.PixelOffset | scripts/generate-banner-gif.mjs:45 | every buffer index belongs to exactly one in-bounds pixel and channel |
| Raster.PixelBytes | scripts/generate-banner-gif.mjs:44-45 | byte j belongs to pixel (x,y) if and only if (x,y) is in bounds and j is one of its three bytes |
| Raster.Painted | scripts/generate-banner-gif.mjs:43-49 | painting a pixel keeps the buffer's size |
| Raster.PaintedBytes | scripts/generate-banner-gif.mjs:43-49 | setPixel out of bounds changes nothing; in bounds it writes r, g, b (mod 256) at `(y*W+x)*3 ..+2` and no other byte changes |
| Raster.SetPixel | scripts/generate-banner-gif.mjs:43-49 | the array after setPixel is Painted of its old contents |
| Raster.Blended | scripts/generate-banner-gif.mjs:51-58 | blending a pixel keeps the buffer's size |
| Raster.BlendedBytes | scripts/generate-banner-gif.mjs:51-58 | blendPixel out of bounds changes nothing; in bounds it changes only the three target bytes, each by the blend formula |
| Raster.BlendTransparent | scripts/generate-banner-gif.mjs:54-57 | alpha ≤ 0 clamps to 0 and leaves the byte as it was |
| Raster.BlendOpaque | scripts/generate-banner-gif.mjs:54-57 | alpha ≥ 1 clamps to 1 and stores the colour channel |
| Raster.BlendConvex | scripts/generate-banner-gif.mjs:54-57 | a blended byte is the rounded lerp with clamped alpha, and lies between the old byte and the colour channel, so it stays in 0..255 |
| Raster.BlendOpaquePaints | scripts/generate-banner-gif.mjs:51-58 | blendPixel with alpha ≥ 1 does what setPixel does |
| Raster.BlendTransparentKeeps | scripts/generate-banner-gif.mjs:51-58 | blendPixel with alpha ≤ 0 leaves the whole buffer unchanged |
| Raster.BlendPixel | scripts/generate-banner-gif.mjs:51-58 | the array after blendPixel is Blended of its old contents |
| Raster.KernelAlpha | scripts/generate-banner-gif.mjs:76-77 | the line kernel's alpha is in (0,1] and is 1 exactly at Manhattan distance 0 |
| Raster.KernelFalloff | scripts/generate-banner-gif.mjs:77 | the kernel never gets stronger further from the centre |
| Raster.Filled | scripts/generate-banner-gif.mjs:99-103 | blending every pixel of an inclusive box keeps the buffer's size |
| Raster.Swept | scripts/generate-banner-gif.mjs:99-103 | the buffer part-way through a row-major sweep keeps its size |
| Raster.SweptStart | scripts/generate-banner-gif.mjs:99-100 | before the sweep nothing is blended |
| Raster.SweptStep | scripts/generate-banner-gif.mjs:101 | blending the cursor pixel advances the sweep by one pixel |
| Raster.SweptRowEnd | scripts/generate-banner-gif.mjs:100 | past the right edge the sweep continues at the left edge of the next row |
| Raster.SweptEnd | scripts/generate-banner-gif.mjs:99 | past the bottom edge the sweep has blended the whole box |
| Raster.FilledOutside | scripts/generate-banner-gif.mjs:99-103 | a box fill leaves every byte outside the box unchanged |
| Raster.Ceil | scripts/generate-banner-gif.mjs:97-98 | `Math.ceil`: the least integer not below x |
| Raster.RectBoxCovers | scripts/generate-banner-gif.mjs:95-98 | an in-image pixel is in the fill box `max(0,⌊x⌋) .. min(W−1,⌈x+w⌉)` × `max(0,⌊y⌋) .. min(H−1,⌈y+h⌉)` if and only if ⌊x⌋ ≤ px ≤ ⌈x+w⌉ and ⌊y⌋ ≤ py ≤ ⌈y+h⌉, far edges included |
| Raster.RectBoxClipped | scripts/generate-banner-gif.mjs:95-98 | every pixel of the fill box is inside the image |
| Raster.RectBoxWhole | scripts/generate-banner-gif.mjs:95-98 | for an integral in-image rectangle the box runs from (x,y) to (x+w,y+h), far edges included |
| Raster.DrawRect | scripts/generate-banner-gif.mjs:94-104 | the array after drawRect is its old contents with the clipped box blended at alpha a |
| Raster.Stamp | scripts/generate-banner-gif.mjs:74-80 | stamping the kernel square keeps the buffer's size |
| Raster.StampKernel | scripts/generate-banner-gif.mjs:74-80 | the two offset loops blend the (2t+1)² square around the centre with the Manhattan kernel |
| Raster.KernelStep | scripts/generate-banner-gif.mjs:76-78 | the alpha computed from the offsets is the kernel alpha at that pixel, so one step extends the sweep |
| Raster.StampRow | scripts/generate-banner-gif.mjs:75-79 | the inner offset loop blends exactly one row of the kernel square |
| Raster.StampAll | scripts/generate-banner-gif.mjs:73-91 | stamping a sequence of centres keeps the buffer's size |
| Raster.StampAllSnoc | scripts/generate-banner-gif.mjs:73-80 | stamping one more centre is one more kernel stamp on the result |
| Raster.StampCentre | scripts/generate-banner-gif.mjs:74-80 | one pass of the loop body adds the current centre to the stamped ones |
| Raster.LineFootprint | scripts/generate-banner-gif.mjs:73-91 | a byte outside every centre's kernel square is unchanged by the line |
| Raster.TimesIsProduct | scripts/generate-banner-gif.mjs:71-90 | repeated addition of the err updates is the product |
| Raster.ErrSteps | scripts/generate-banner-gif.mjs:71-90 | err starts at dx−dy, a step in x subtracts dy, a step in y adds dx |
| Raster.ErrAtXEnd | scripts/generate-banner-gif.mjs:83 | once x has reached x1, `2*err > -dy` cannot hold |
| Raster.ErrAtYEnd | scripts/generate-banner-gif.mjs:87 | once y has reached y1, `2*err < dx` cannot hold |
| Raster.StepProgress | scripts/generate-banner-gif.mjs:81-90 | before the end point, every iteration steps x or y or both, never past x1 or y1: the loop terminates |
| Raster.StepEffect | scripts/generate-banner-gif.mjs:82-90 | one iteration moves x by sx and/or y by sy and keeps err equal to its closed form |
| Raster.Walk | scripts/generate-banner-gif.mjs:73-91 | the centres from a point of the walk start at that point |
| Raster.WalkAdvance | scripts/generate-banner-gif.mjs:81-90 | the walk is the current centre followed by the walk from the next one |
| Raster.WalkEnds | scripts/generate-banner-gif.mjs:81 | the last centre is the rounded end point |
| Raster.WalkSteps | scripts/generate-banner-gif.mjs:82-90 | consecutive centres differ by sx in x and/or sy in y, and by at least one of them |
| Raster.WalkInSpan | scripts/generate-banner-gif.mjs:67-90 | every centre lies in the bounding box of the two end points |
| Raster.LineCentres | scripts/generate-banner-gif.mjs:62-91 | the first centre is the rounded start and the last is the rounded end |
| Raster.DrawLine | scripts/generate-banner-gif.mjs:60-92 | the loop terminates, and the array after drawLine is its old contents with the kernel stamped at every centre of the walk, in order |
| Raster.WalkAtEnd | scripts/generate-banner-gif.mjs:81 | reaching (x1,y1) means both step counts are complete and the walk ends there |
| Raster.BresenhamStep | scripts/generate-banner-gif.mjs:82-90 | the two `if`s advance the state to the next centre of the walk and decrease the remaining steps |
| Raster.AtEndPoint | scripts/generate-banner-gif.mjs:81 | with both step counts complete, the position is (x1,y1) |
| Raster.Columns | scripts/generate-banner-gif.mjs:237-239 | blending the grid columns keeps the buffer's size |
| Raster.Rows | scripts/generate-banner-gif.mjs:240-242 | blending the grid rows keeps the buffer's size |
| Raster.ColumnFilled | scripts/generate-banner-gif.mjs:238 | blending column x top to bottom extends the blended columns by one |
| Raster.RowFilled | scripts/generate-banner-gif.mjs:241 | blending row y left to right extends the blended rows by one |
| Raster.GridColumns | scripts/generate-banner-gif.mjs:237-239 | the column loop blends every column whose x is a multiple of 80 |
| Raster.GridRows | scripts/generate-banner-gif.mjs:240-242 | the row loop blends every row whose y is a multiple of 60 |
| Raster.HudGrid | scripts/generate-banner-gif.mjs:235-242 | the HUD grid is the columns, then the rows, at alpha 0.016 in colour (148,163,184) |
| Raster.HudGridOverlay | scripts/generate-banner-gif.mjs:235-242 | pixels off the grid lines are untouched, and every grid byte stays between its old value and the grid colour |
| Raster.NewFrame | scripts/generate-banner-gif.mjs:321 | a new frame is W·H·3 zero bytes |
| Raster.Ascii | scripts/generate-banner-gif.mjs:369 | `Buffer.from(s,'ascii')` gives one byte per character, equal to it below 128 |
| Raster.PpmHeaderBytes | scripts/generate-banner-gif.mjs:369 | the header is exactly the 16 bytes `P6\n1200 300\n255\n` |
| Raster.WidthDigits | scripts/generate-banner-gif.mjs:369 | W prints as `1200` |
| Raster.HeightDigits | scripts/generate-banner-gif.mjs:369 | H prints as `300` |
| Raster.AsciiAppend | scripts/generate-banner-gif.mjs:369 | ASCII encoding distributes over concatenation |
| Raster.ParsePpm | scripts/generate-banner-gif.mjs:369-370 | a parsed frame has exactly W·H·3 bytes |
| Raster.PpmFile | scripts/generate-banner-gif.mjs:369-370 | a frame file is the header's length plus the buffer's, and a full frame buffer reads back from it |
| Raster.PpmRoundTrip | scripts/generate-banner-gif.mjs:369-370 | a frame file is 16 + W·H·3 bytes and reads back as the frame |
| Raster.ParsePpmOnlyFrames | scripts/generate-banner-gif.mjs:369-370 | only the header followed by a frame parses |
| Raster.FrameFileName | scripts/generate-banner-gif.mjs:371 | every name is `frame`, at least three digits, then `.ppm` |
| Raster.AtMostThreeDigits | scripts/generate-banner-gif.mjs:371 | a frame number below 1000 prints as at most three digits, so `padStart(3, '0')` fills it to exactly three |
| Raster.FrameFileNameDigits | scripts/generate-banner-gif.mjs:371 | for f < 1000 the name is `frame`, three digits that parse back to f, then `.ppm` |
| Raster.FileNameLayout | scripts/generate-banner-gif.mjs:371 | the layout of `frame` + three characters + `.ppm` |
| Raster.FrameFileNamesDistinct | scripts/generate-banner-gif.mjs:371 | different frame numbers below 1000 get different file names |
| Raster.RunFrameNames | scripts/generate-banner-gif.mjs:319-371 | each of the `FRAMES` files of a run is named by the `frame%03d.ppm` pattern, its digits read back as the frame number, and no two share a name |
| Readme.IsoDate | scripts/update-readme.mjs:7-9 | the date is the first 10 characters of the ISO timestamp (input in `toISOString`'s fixed format, see "## Left out") |
| Readme.NormalizeNewlines | scripts/update-readme.mjs:14 | no `\n` is left, each `\r\n` or `\n` becomes one space, and a text without `\n` is unchanged |
| Readme.LoneCarriageReturnKept | scripts/update-readme.mjs:14 | a `\r` not followed by `\n` is kept |
| Readme.NormalizeCons | scripts/update-readme.mjs:14 | a character that is not `\n` and does not open a `\r\n` pair is kept in place |
| Readme.NormalizeKeepsPrefix | scripts/update-readme.mjs:14 | text without `\n` comes through unchanged ahead of whatever follows it |
| Readme.NormalizeLf | scripts/update-readme.mjs:14 | a `\n` not preceded by `\r` becomes exactly one space, the text on both sides kept |
| Readme.NormalizeCrLf | scripts/update-readme.mjs:14 | a `\r\n` pair becomes exactly one space, the text on both sides kept |
| Readme.DescriptionCell | scripts/update-readme.mjs:14 | the description cell contains no line feed (`\n`), is trimmed at both ends, and empty when the description is missing; a present description is line-break-normalized, then trimmed |
| Readme.PushedCell | scripts/update-readme.mjs:17 | the push cell is empty when `pushed_at` is missing or empty, otherwise the date part of the timestamp |
| Readme.AllBackticked | scripts/update-readme.mjs:19 | one backticked word per topic |
| Readme.TopicsCell | scripts/update-readme.mjs:18-20 | missing or empty topics give an empty cell |
| Readme.TopicsCellWords | scripts/update-readme.mjs:18-20 | the cell is at most the first six topics, in order, each in backticks, separated by single spaces |
| Readme.NatToStringOneLine | scripts/update-readme.mjs:16-22 | a star count prints without a line feed |
| Readme.StarsCell | scripts/update-readme.mjs:16 | a missing or non-number star count prints as `0`; a count prints as its decimal digits, which read back as the count (with `-` first for a negative one) |
| Readme.StarsCellOneLine | scripts/update-readme.mjs:16-22 | the stars cell contains no line feed |
| Readme.TopicsCellOneLine | scripts/update-readme.mjs:18-20 | the topics cell contains no line feed when no topic contains one |
| Readme.PushedCellOneLine | scripts/update-readme.mjs:17 | the push cell contains no line feed |
| Readme.RowPiecesOneLine | scripts/update-readme.mjs:22 | a row assembled from cells without line feeds contains none |
| Readme.FormatRepoRow | scripts/update-readme.mjs:11-23 | a repo row contains no line feed (`\n`), descriptions with line feeds included, provided the other fields hold none |
| Readme.Rows | scripts/update-readme.mjs:35 | one row per repo |
| Readme.RenderTable | scripts/update-readme.mjs:25-36 | the table is `_No repos found._` if and only if there are no repos |
| Readme.HeaderRowsOneLine | scripts/update-readme.mjs:30-33 | the header and alignment rows contain no line feed |
| Readme.RenderTableLines | scripts/update-readme.mjs:25-36 | the lines of a non-empty table are the header row, the alignment row (`---:` under Stars) and one row per repo, in input order |
| Readme.ListAllRepos | scripts/update-readme.mjs:55-74 | pages 1, 2, 3, … are requested in order, every one before the last is full, the last is not an array, empty or short, and the result is the concatenation of the requested pages |
| Readme.PagesRequested | scripts/update-readme.mjs:59-71 | the number of pages requested is one past the last full page |
| Readme.RequestedPagesUnique | scripts/update-readme.mjs:67-69 | that stopping page is unique |
| Readme.PublicOnly | scripts/update-readme.mjs:92 | a repo is kept if and only if it is a non-null record with `private === false`, so a missing `private` is dropped |
| Readme.PublicOnlyAppend | scripts/update-readme.mjs:92 | filtering distributes over concatenation, so the kept repos stay in API order |
| Readme.PublicOnlySnoc | scripts/update-readme.mjs:92 | no records give no repos, and each further record adds its repo at the end exactly when it is present and `private === false` |
| Readme.PushedLater | scripts/update-readme.mjs:95 | a goes first only when its push time is non-empty and later than b's; then b never goes first against a; of two different push times one goes first |
| Readme.PushedLaterConsistent | scripts/update-readme.mjs:95 | the newest-push-first comparator is a strict weak order |
| Readme.SortedByPush | scripts/update-readme.mjs:95 | the sort is a permutation, push times never increase along it, and repos without `pushed_at` come last |
| Readme.SortKeepsTies | scripts/update-readme.mjs:95 | repos with the same push time keep their API order |
| Readme.TiedIffSamePush | scripts/update-readme.mjs:95 | two repos tie under the comparator exactly when their push times are equal |
| Readme.Active | scripts/update-readme.mjs:97-108 | every repo in the active list is pushed at or after the cutoff, and the list is no longer than the input |
| Readme.Inactive | scripts/update-readme.mjs:97-108 | every repo in the inactive list has no push time or one before the cutoff, and the list is no longer than the input |
| Readme.PartitionStep | scripts/update-readme.mjs:97-108 | one more repo goes to the end of exactly one of the two lists |
| Readme.CoverStep | scripts/update-readme.mjs:97-108 | appending the last element to one of two lists that together hold the rest keeps them together holding all |
| Readme.SplitStep | scripts/update-readme.mjs:97-108 | appending the last element to one side of a split of the rest gives a split of the whole |
| Readme.Partition | scripts/update-readme.mjs:97-108 | the loop pushes each repo onto active or inactive, in order |
| Readme.PartitionCovers | scripts/update-readme.mjs:97-108 | every repo lands in exactly one of the two lists |
| Readme.PartitionSides | scripts/update-readme.mjs:97-108 | a repo is in the active list if and only if it is in the input and pushed at or after the cutoff, and in the inactive list if and only if it is in the input and not |
| Readme.CutoffBoundary | scripts/update-readme.mjs:101-106 | a push exactly at the cutoff is active, and a missing push is inactive |
| Readme.PartitionSplitsSorted | scripts/update-readme.mjs:95-108 | on the sorted list, active followed by inactive is the list itself |
| Readme.PartitionSplits | scripts/update-readme.mjs:97-108 | when no active repo follows an inactive one, the partition is a split of the list |
| Readme.ActiveBeforeActive | scripts/update-readme.mjs:95-106 | a repo sorted ahead of an active repo is active |
| Readme.AllActive | scripts/update-readme.mjs:97-108 | a list of active repos goes entirely to active |
| Readme.InactiveBlock | scripts/update-readme.mjs:111-117 | the inactive table sits inside `<details>`, after the summary line and a blank line |
| Readme.UpdatedAt | scripts/update-readme.mjs:123 | the stamp is the first 16 characters plus ` UTC`; for an ISO timestamp it is `YYYY-MM-DD HH:MM UTC` |
| Readme.RenderExpandsDollarPatterns | scripts/update-readme.mjs:125-128 | as written, a table containing `$&` is replaced by the placeholder itself, which stays in the README |
| Readme.PlaceholderLetters | scripts/update-readme.mjs:126-128 | the placeholders' lengths and leading characters |
| Readme.ReplaceFirstLiteral | scripts/update-readme.mjs:125-128 | literal replacement of the first occurrence, and nothing when there is none |
| Readme.Render | scripts/update-readme.mjs:125-128 | a template without the placeholders is returned as is; with no `$` in the replacements, the rendering as written equals literal substitution |
| Readme.RenderLiteral | scripts/update-readme.mjs:125-128 | a template without the placeholders is returned as is |
| Readme.ReplaceFirstAgrees | scripts/update-readme.mjs:125-128 | `replace` without `$` in the replacement is literal replacement |
| Readme.ReplaceFirstLiteralAt | scripts/update-readme.mjs:125-128 | when no occurrence starts before the one after the prefix, that occurrence is the first in the whole text, whatever follows, and it is the one replaced |
| Readme.RenderFillsTemplate | scripts/update-readme.mjs:125-128 | each placeholder is replaced at its first occurrence, in the order active, inactive, updated, for any tables in which no copy of a later placeholder starts before its slot |
| Readme.UpdateReadme | scripts/update-readme.mjs:82-130 | the README is the template filled, each at its first placeholder, with the active table, the inactive block and the stamp built from the sorted public repos; whenever these hold no `$` it equals the chained `replace` calls as written |
| Readme.TablesListEveryPublicRepo | scripts/update-readme.mjs:92-117 | the two tables together list every public repo once, in sorted order, active first |
| Gallery.EntityOf | scripts/iterate-banner-3d.mjs:168-172 | each of `& < > " '` maps to an entity starting with `&` with no other `&`; other characters stand for themselves |
| Gallery.EntitiesDiffer | scripts/iterate-banner-3d.mjs:168-172 | the five entities are pairwise distinct |
| Gallery.AmpersandFirstMatters | scripts/iterate-banner-3d.mjs:168-172 | escaping `&` first gives `&lt;` for `<`; escaping it last would double-escape to `&amp;lt;` |
| Gallery.LtUntouched | scripts/iterate-banner-3d.mjs:170-172 | the later replacements leave `&lt;` alone |
| Gallery.ReplaceCharOne | scripts/iterate-banner-3d.mjs:168-172 | `replaceAll` of one character on a one-character string |
| Gallery.EscapedAppend | scripts/iterate-banner-3d.mjs:166-173 | character-wise escaping distributes over concatenation |
| Gallery.EscapeHtmlAppend | scripts/iterate-banner-3d.mjs:166-173 | escapeHtml distributes over concatenation |
| Gallery.EscapeHtmlChar | scripts/iterate-banner-3d.mjs:166-173 | escapeHtml of one character is its entity |
| Gallery.EscapeIsCharwise | scripts/iterate-banner-3d.mjs:166-173 | the chain of five `replaceAll`s equals replacing each character by its entity in one pass |
| Gallery.DecodeStep | scripts/iterate-banner-3d.mjs:168-172 | decoding one entity other than `&amp;` undoes exactly that character's escaping |
| Gallery.EscapedNothing | scripts/iterate-banner-3d.mjs:166-173 | escaping is the identity on characters it does not rewrite |
| Gallery.EscapeHtml | scripts/iterate-banner-3d.mjs:166-173 | escapeHtml's output never contains `< > " '`, and it is the identity on text without `& < > " '` |
| Gallery.LtGone | scripts/iterate-banner-3d.mjs:169 | after the `<` replacement no `<` is left |
| Gallery.GtGone | scripts/iterate-banner-3d.mjs:169-170 | after the `>` replacement neither `<` nor `>` is left |
| Gallery.QuoteGone | scripts/iterate-banner-3d.mjs:169-171 | after the `"` replacement none of `< > "` is left |
| Gallery.AposGone | scripts/iterate-banner-3d.mjs:169-172 | after the `'` replacement none of `< > " '` is left |
| Gallery.EscapeRoundTrip | scripts/iterate-banner-3d.mjs:168-172 | decoding `&lt; &gt; &quot; &#39;` and then `&amp;` recovers the input |
| Gallery.FirstIndex | scripts/iterate-banner-3d.mjs:54-57 | the first position of a key, or none if and only if the key is absent |
| Gallery.FirstIndexUnique | scripts/iterate-banner-3d.mjs:54-57 | the first position is unique |
| Gallery.KeyIndex | scripts/iterate-banner-3d.mjs:54-57 | a property's position in an object, or none if and only if it is absent |
| Gallery.Assign | scripts/iterate-banner-3d.mjs:56 | assigning a property keeps an existing key's place or appends a new key, and changes only that property's value |
| Gallery.KeyIndexAppend | scripts/iterate-banner-3d.mjs:56 | appending a new property does not move the others |
| Gallery.Fresh | scripts/iterate-banner-3d.mjs:54-57 | the patch keys not already present, in order |
| Gallery.FreshIgnores | scripts/iterate-banner-3d.mjs:56 | a key not in the patch does not affect which patch keys are new |
| Gallery.SpreadKeys | scripts/iterate-banner-3d.mjs:54-57 | `{...target, ...patch}` has the target's keys, then the patch's new keys, in order |
| Gallery.KeysCons | scripts/iterate-banner-3d.mjs:56 | the keys of an object are its first key and then the rest |
| Gallery.FreshCons | scripts/iterate-banner-3d.mjs:56 | the new keys of a key list are its head, when new, then the rest |
| Gallery.LookupHead | scripts/iterate-banner-3d.mjs:56 | the first property is found at the head |
| Gallery.LookupTail | scripts/iterate-banner-3d.mjs:56 | other properties are found in the rest |
| Gallery.SpreadLookup | scripts/iterate-banner-3d.mjs:54-57 | after the spread, the patch's value wins for every patch key, and other keys keep the target's value |
| Gallery.SpreadUnique | scripts/iterate-banner-3d.mjs:54-57 | the spread object has no duplicate keys |
| Gallery.MakeVariant | scripts/iterate-banner-3d.mjs:51-59 | the slug is `preset-name`; params hold `preset` first, then the patch's keys, with every patch value winning, `preset` included |
| Gallery.DigitRun | scripts/iterate-banner-3d.mjs:74-76 | `\d+` matches greedily: the longest run of digits |
| Gallery.FirstMetric | scripts/iterate-banner-3d.mjs:74-76 | the leftmost position where the key is followed by a digit, or none if there is none |
| Gallery.NumberAt | scripts/iterate-banner-3d.mjs:74-76 | the capture `\d+(?:\.\d+)?`: a maximal digit run; a fraction is captured exactly when a `.` followed by a digit comes next, and its digit run is maximal too |
| Gallery.Metric | scripts/iterate-banner-3d.mjs:74-76 | `match` fails if and only if the key never occurs followed by a digit, and otherwise captures the number after an occurrence followed by a digit with no such occurrence before it |
| Gallery.Pow10 | scripts/iterate-banner-3d.mjs:79-81 | powers of ten are positive |
| Gallery.ParseNatBelowPow10 | scripts/iterate-banner-3d.mjs:79-81 | a number of n digits is below 10ⁿ |
| Gallery.DecimalValue | scripts/iterate-banner-3d.mjs:79-81 | `Number(capture)` lies between the whole part and the whole part plus one |
| Gallery.FractionBelowOne | scripts/iterate-banner-3d.mjs:79-81 | a fraction part is below one |
| Gallery.SignalScore | scripts/iterate-banner-3d.mjs:73-92 | stats are null if and only if one of YMIN, YMAX, YAVG is missing, then the score is −999; otherwise each level times 255 is `Number()` of its captured text, and the levels are scored |
| Gallery.MissingKeySentinel | scripts/iterate-banner-3d.mjs:77 | a key absent from the captured text gives score −999 and null stats |
| Gallery.ScoredHigher | scripts/iterate-banner-3d.mjs:223 | a goes first only when it scored strictly higher, never when b did; items neither ahead of the other scored the same |
| Gallery.ScoredHigherConsistent | scripts/iterate-banner-3d.mjs:223 | the descending-score comparator is a strict weak order |
| Gallery.CollectItems | scripts/iterate-banner-3d.mjs:194-221 | one item per variant, in order, with its slug, params, score and stats |
| Gallery.FirstMaxIndex | scripts/iterate-banner-3d.mjs:156 | the index of the first item with the maximum score |
| Gallery.FirstMaxIndexUnique | scripts/iterate-banner-3d.mjs:156 | that index is unique |
| Gallery.ReduceBest | scripts/iterate-banner-3d.mjs:156 | the reduce returns the start value or an item, scores at least the start value and at least every item |
| Gallery.ReduceIsFirstMax | scripts/iterate-banner-3d.mjs:156 | the `reduce` with strict `>` keeps the earlier item on ties, so it returns the first maximum |
| Gallery.BestSlug | scripts/iterate-banner-3d.mjs:156 | the gallery's best slug is that of the first maximum, and `''` for no items |
| Gallery.RankedDescending | scripts/iterate-banner-3d.mjs:223-224 | after the sort, scores never increase, nothing is lost, and the first item has the maximum score |
| Gallery.TiedWithFirst | scripts/iterate-banner-3d.mjs:223 | the first item tied with x is the first of x's ties |
| Gallery.RankedBestIsFirstMax | scripts/iterate-banner-3d.mjs:223-224 | the stable sort puts first the earliest best-scored item, which is the gallery's highlighted slug |
| Gallery.RankVariants | scripts/iterate-banner-3d.mjs:194-224 | the items are sorted in place by descending score, and best is the first item, absent for no variants |
| StableSort.InsertionPoint | scripts/update-readme.mjs:95 | where a new element lands: after all it need not go ahead of |
| StableSort.InsertionPointUnique | scripts/update-readme.mjs:95 | the insertion point is unique |
| StableSort.TiedWithAppend | scripts/update-readme.mjs:95 | the tied elements of a concatenation are those of each part |
| StableSort.SortIsPermutation | scripts/update-readme.mjs:95 | sorting is a permutation |
| StableSort.InsertLastPermutation | scripts/update-readme.mjs:95 | one insertion adds exactly the element |
| StableSort.SortSnoc | scripts/update-readme.mjs:95 | sorting one more element is one more insertion |
| StableSort.InsertLastSorted | scripts/update-readme.mjs:95 | an insertion keeps a sorted list sorted |
| StableSort.SortIsSorted | scripts/update-readme.mjs:95 | the result is sorted under any strict weak order |
| StableSort.SortIsStable | scripts/update-readme.mjs:95 | elements that tie keep their relative order |
| StableSort.StableInsert | scripts/update-readme.mjs:95 | one insertion keeps tied elements in order |
| StableSort.TiedWithNone | scripts/update-readme.mjs:95 | nothing an element must precede ties with what it ties with |
| StableSort.InsertStep | scripts/iterate-banner-3d.mjs:223 | one pass moves a[i] left into its insertion point and leaves the rest of the array alone |
| StableSort.SortInPlace | scripts/iterate-banner-3d.mjs:223 | `a.sort(compareFn)` leaves the stable sort of the old contents in the array |
| Text.Split | scripts/update-readme.mjs:35 | splitting gives at least one part |
| Text.SplitWithoutSeparator | scripts/update-readme.mjs:35 | a text without the separator splits into itself |
| Text.SplitAtFirstSeparator | scripts/update-readme.mjs:35 | splitting at the first separator gives the head and the split rest |
| Text.SplitJoin | scripts/update-readme.mjs:35 | splitting a join of separator-free parts gives back the parts |
| Text.JoinExcludes | scripts/update-readme.mjs:35 | a join of parts and separator without c has no c |
| Text.MismatchAt | scripts/update-readme.mjs:125-128 | one mismatching character rules out an occurrence |
| Text.IndexOfFrom | scripts/update-readme.mjs:125-128 | the leftmost occurrence at or after a position, or none if and only if there is none |
| Text.Substitution | scripts/update-readme.mjs:125-128 | a replacement without `$` is inserted as is |
| Text.ReplaceFirst | scripts/update-readme.mjs:125-128 | `replace` with a string pattern: nothing changes without an occurrence; with one and no `$`, it is replaced literally |
| Text.ReplaceFirstAt | scripts/update-readme.mjs:123-128 | the occurrence after a prefix that cannot hold it is the first, and it is the one replaced, with `$` patterns expanded |
| Text.ReplaceChar | scripts/iterate-banner-3d.mjs:168-172 | `replaceAll` of one character: unchanged without it, and every character afterwards is from the replacement or another character of the input |
| Text.ReplaceCharAbsent | scripts/iterate-banner-3d.mjs:168-172 | replacing an absent character changes nothing |
| Text.ReplaceCharKeepsOut | scripts/iterate-banner-3d.mjs:168-172 | a character the replacement does not contain is absent afterwards if it was absent or was the one replaced |
| Text.ReplaceCharAppend | scripts/iterate-banner-3d.mjs:168-172 | replacing a character distributes over concatenation |
| Text.ReplaceAllMatch | scripts/iterate-banner-3d.mjs:168-172 | `replaceAll` at a match inserts the replacement and continues after the match |
| Text.ReplaceAllSkip | scripts/iterate-banner-3d.mjs:168-172 | a prefix that cannot start a match is copied |
| Text.TrimStart | scripts/update-readme.mjs:14 | removes exactly the leading whitespace |
| Text.TrimEnd | scripts/update-readme.mjs:14 | removes exactly the trailing whitespace |
| Text.Trim | scripts/update-readme.mjs:14 | the result is a contiguous part of the input with only whitespace cut before and after it, has no whitespace at either end, and is the identity on trimmed text |
| Text.TrimCut | scripts/update-readme.mjs:14 | trimming the start and then the end cuts only whitespace around the part kept |
| Text.TrimEndKeepsFirst | scripts/update-readme.mjs:14 | trimming the end keeps the first character |
| Text.TrimUnchanged | scripts/update-readme.mjs:14 | trimming text without surrounding whitespace changes nothing |
| Text.DigitChar | scripts/generate-banner-gif.mjs:369-371 | a digit value prints as a decimal digit |
| Text.NatToString | scripts/generate-banner-gif.mjs:369-371 | a number prints as at least one decimal digit, with no leading zero (`0` alone for zero) |
| Text.ParseNatToString | scripts/generate-banner-gif.mjs:371 | parsing the printed number gives it back |
| Text.ParseNatLeadingZeros | scripts/generate-banner-gif.mjs:371 | leading zeros do not change the value |
| Text.ZerosParse | scripts/generate-banner-gif.mjs:371 | a string of zeros parses as 0 |
| Text.IntToString | scripts/update-readme.mjs:16-22 | an integer prints as its digits, with `-` when negative |
| Text.PadStart | scripts/generate-banner-gif.mjs:371 | `padStart` ends with the input and fills up to the target length with the pad character |
| Text.LexLessIrreflexive | scripts/update-readme.mjs:95 | string order is irreflexive |
| Text.LexLessTransitive | scripts/update-readme.mjs:95 | string order is transitive |
| Text.LexLessAsymmetric | scripts/update-readme.mjs:95 | string order is asymmetric |
| Text.LexLessTotal | scripts/update-readme.mjs:95 | any two distinct strings are ordered |
| Text.EmptyIsLeast | scripts/update-readme.mjs:95 | the empty string is below every other string |

## Left out

- `scripts/render-banner-3d.mjs` is not part of this model. It is a three.js page built as a string and driven by a headless browser and ffmpeg. It has no command-line parser or other logic to model.
- The floating-point geometry and shading of the banner are not modelled. These are `rotX`, `rotY`, `rotZ`, `project`, `drawWireObject`, `drawCircle`, `marbleField`, and the trigonometric and exponential parts of `backgroundAggregate`.
- Subprocesses, timeouts and the ffmpeg filter strings are I/O, not logic. This covers `run`, `runWithTimeout`, `runCapture`, `runInherit`, `drawtext` and `palettegen`.
- The file system, the network and the environment are not modelled: `ghFetchJson`, `fetch`, the API token, `readFile`, `writeFile` and `mkdir`.
  - The fetched pages are an input sequence. A page past the last is an empty array, which is what the API returns.
  - The template text and the current time are inputs.
- Calendar arithmetic is not modelled: `subtractMonthsUtc` and `toISOString`. The cutoff and the timestamps are ISO strings in the API's fixed format.
- `localeCompare` and the `Date` comparison are modelled as character (code point) string order. This agrees with both for fixed-format ISO timestamps.
- Strings are sequences of Unicode scalar values, not JavaScript's UTF-16 code units. A character outside the Basic Multilingual Plane is one element here and two code units in JavaScript. So lengths, slices, `Text.LexLess` order and `Raster.Ascii`'s byte count can differ on such characters. They agree on the ASCII timestamps, PPM header, file names and placeholders the scripts compute with.
- Floating point is modelled by exact reals. This affects the blend, lerp and `Math.round` on values that are not exact binary fractions, and `Number()` on decimal text.
- `SignalScore`'s luminance heuristic is a function parameter, and NaN scores are not modelled.
  - The heuristic is floating-point arithmetic that only adjusts a score.
  - The model covers the key lookup, the scaling by 1/255 and the −999 sentinel.
- `makeHtml`'s markup, its CSS and the in-page script that highlights the best card are not modelled. The model covers the escaping and the best-slug `reduce` only.
- `Gallery.EscapeHtml`: `escapeHtml` takes its argument through `String(s)`. The model takes a string and does not cover converting other values.
- `Gallery.SpreadKeys`: JavaScript lists integer-like property names first in an object spread. The model keeps plain insertion order, which is correct for the non-numeric parameter names the script uses.
- The model does not cover the `$` patterns of `replaceAll` in `escapeHtml`. Its replacements are fixed entities without `$`.
- `Gallery.RankVariants`: the best item is `None` for no variants. The script would instead fail on `best.params`.
- `Readme.TopicsCellWords`: the word split is proved for topics without spaces, which GitHub topic names never contain. Topics are assumed to be strings.
- `Readme.FormatRepoRow`: a description's `|` is not escaped, so a row can have more than six table cells. Only the absence of a line feed (`\n`) is proved.
- `Readme.FormatRepoRow`: a lone carriage return in a description is kept, as `/\r?\n/g` leaves it (`Readme.LoneCarriageReturnKept`). Markdown counts it as a line ending, so such a description still breaks the table row. The model does not promise a single Markdown line.
- `Readme.UpdatedAt` states the `YYYY-MM-DD HH:MM UTC` form only for a timestamp in `toISOString`'s format, because `toISOString` itself is not modelled.

## Findings

| source | as written | input that shows it | evidently intended | confidence | as-written member | corrected member |
|---|---|---|---|---|---|---|
| scripts/update-readme.mjs:125-128 | `template.replace(placeholder, table)` treats `$&`, `$'`, `` $` `` and `$$` in the table text as replacement patterns | a repository description containing `$&`: the active table's `$&` is replaced by `{{ACTIVE_REPOS}}` itself, so the placeholder reappears in the README | each placeholder is replaced by the table text, literally | not executed | Readme.RenderExpandsDollarPatterns | Readme.RenderFillsTemplate |

The as-written rendering is `Readme.Render`, and `Readme.RenderExpandsDollarPatterns`
exhibits the discrepancy. The corrected rendering is `Readme.RenderLiteral`, a
literal first-occurrence replacement, and `Readme.RenderFillsTemplate` proves
that it fills each placeholder with its text. The contract of `Readme.Render`
states that the two agree whenever the tables and the stamp contain no `$`.
`Readme.UpdateReadme` uses the corrected rendering. Its contract also states
that the result equals the as-written rendering whenever no `$` is inserted.
