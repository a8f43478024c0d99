# QR batch generator — verified model of the generation pipeline

This project models the batch pipeline of the browser class `QRCodeGenerator`
(`docs/script.js`). The class turns a list of text codes into PNG QR codes,
packs them into a ZIP archive and keeps previews of them. The model covers
four parts:

- **Input normalisation** (`input.dfy`, with the string primitives in
  `jsstring.dfy`). This covers the text area (`getCodesFromInput`), uploaded
  files (`parseFileContent`) and the CSV reader (`parseCSV`). JavaScript's
  `trim`, `split`, `includes`, `endsWith` and `toLowerCase` are modelled in
  module `JsString`. `input_examples.dfy` works through the CSV example step
  by step.
- **File naming** (`naming.dfy`). `generateFilename` builds a stem in four
  steps, in the code's order: replace invalid characters, truncate to 50,
  collapse runs of `_`, strip one edge `_`. It then adds either a 1-based,
  zero-padded position or the `simpleHash` of the code. `simpleHash` is
  modelled exactly: UTF-16 code units, a 31× rolling hash wrapped to int32,
  absolute value, lower-case hex, cut to 8.
- **Batch state** (`batch.dfy`, `duplicates.dfy`).
  - Class `Batch.QRCodeGenerator` keeps the fields `codes`, `zip`,
    `isGenerating`, `isCancelled`, `generatedCount`, `totalCount`,
    `qrPreviews` and `showPreview`. Its methods follow `generateQRCodes`,
    `processAllCodes`, `generateQRCode`, `cancelGeneration`,
    `resetGeneration` and `clearAll`.
  - The zip is a map from filename to blob. `null` is `None`.
  - `ProcessAllCodes` is proved against two functions: `Archive` (last write
    wins) and `Previews`.
  - The progress percentage and the duplicate and blank-line figures of
    the final summary are modelled too.
- **Rasterisation** (`raster.dfy`). The drawing loop of `generateQRCode`
  fills a light `size × size` pixel array. It then paints one dark square of
  `floor((size - 2*margin)/n)` pixels for each dark module of an `n × n`
  module grid. The result is proved equal, pixel by pixel, to a closed-form
  colour function, and that function is proved equal to the reference
  reading "inside the square of some dark module".

The QR encoder, the canvas-to-PNG encoding and the ZIP writer are external.
The module grid is an input of `Raster.DrawModules`. What rendering one code
gives (a blob and a data URL, or an error) is the input
`render: string -> Rendering` of the batch.

Some behaviour of the code that the model follows:

- The stem is truncated before runs of `_` are collapsed (docs/script.js:323-324).
- Options are never validated: there is no rejection of `2*margin >= size`.
- A cancel does not stop the tasks: every task passes its `isCancelled` test
  before the first one waits for its blob. So a cancel can only suppress the
  results (docs/script.js:222, 255, 293).
- There is no "batch already running" error and no "empty archive" error.

## Model

| member | source | states |
|---|---|---|
| JsString.Trim | docs/script.js:182 | the result of `trim` is empty or starts and ends with a non-whitespace character, and is no longer than the input |
| JsString.TrimSlice | docs/script.js:182 | `trim` removes exactly a whitespace prefix and a whitespace suffix |
| JsString.TrimEmptyIff | docs/script.js:182-183 | the trimmed text is empty exactly when every character is whitespace |
| JsString.TrimIdempotent | docs/script.js:188 | trimming twice is trimming once |
| JsString.Split | docs/script.js:187 | `split` on one character gives at least one piece and no piece contains the separator |
| JsString.JoinSplit | docs/script.js:187 | joining the pieces with the separator gives back the text |
| JsString.SplitAtSep | docs/script.js:163 | text, separator, rest splits into the text followed by the pieces of the rest |
| JsString.Contains | docs/script.js:166 | `includes` always finds the empty needle and never a needle longer than the text |
| JsString.ContainsInfix | docs/script.js:166 | `includes` finds a needle wherever it occurs in the text |
| JsString.EndsWith | docs/script.js:154 | a text that `endsWith` a suffix is its earlier part followed by that suffix |
| JsString.EndsWithConcat | docs/script.js:154 | any text followed by a suffix `endsWith` that suffix |
| JsString.Utf16Units | docs/script.js:339-340 | `length` and `charCodeAt` see at least one code unit per character, each below 2^16; for text inside the BMP they see exactly the character codes |
| JsString.ToLower | docs/script.js:153 | lower-casing keeps the length and maps every ASCII capital to its small letter, other characters unchanged |
| Input.NonEmptyTrimmed | docs/script.js:188-189 | the trim-and-filter chain keeps at most as many lines, each non-empty and trimmed |
| Input.NonEmptyTrimmedEmptyIff | docs/script.js:187-189 | trimming and dropping blank lines leaves nothing exactly when every line trims to empty |
| Input.NonEmptyTrimmedAppend | docs/script.js:187-189 | the trim-and-filter chain works line by line and keeps the input order |
| Input.TrimmedLinesTrim | docs/script.js:182-189 | trimming the whole text before splitting does not change which lines survive |
| Input.GetCodesFromInput | docs/script.js:181-196 | the error comes exactly when the text is blank; otherwise the result is exactly the trimmed non-blank lines in order, is non-empty, and each code is non-empty and trimmed |
| Input.TrimmedEmptyIff | docs/script.js:187-193 | a text has no non-blank line exactly when it is blank, so the "no valid codes" error at lines 191-193 is unreachable |
| Input.LowerTrimmed | docs/script.js:163 | each header is the trimmed, lower-cased column name at the same index |
| Input.FindIndexContaining | docs/script.js:166 | `findIndex` gives the first index whose header contains the needle, or none when no header does |
| Input.CodeColumn | docs/script.js:163-169 | the code column is the first header containing "code", or 0 when none does |
| Input.RowField | docs/script.js:172-173 | a field taken from a data row is non-empty, trimmed and free of commas |
| Input.CsvCodes | docs/script.js:171-176 | the CSV body yields at most one code per data row, each non-empty, trimmed and free of commas |
| Input.CsvCodesMembership | docs/script.js:171-176 | a code comes out of the CSV body exactly when some data row has it as its code field |
| Input.ParseCsv | docs/script.js:161-179 | the loop computes the header-selected column's codes of all rows after the first; it fails exactly on an empty line list, which throws in the code |
| Input.ParseFileContent | docs/script.js:151-159 | lines are trimmed and blanks dropped, and names ending in `.csv` (any case) go through the CSV reader; every code is non-empty and trimmed; the only error is a blank `.csv` file |
| InputExamples.HeaderExample | docs/script.js:163-169 | the header `id,code,note` selects column 1 |
| InputExamples.RowsExample | docs/script.js:171-176 | rows `1,ABC,x`, `2,,y`, `3,XYZ,z` give `ABC` and `XYZ`, skipping the empty field |
| InputExamples.CsvExample | docs/script.js:161-179 | the whole CSV example gives `["ABC", "XYZ"]` |
| Naming.ReplaceInvalid | docs/script.js:322 | after replacement only `[A-Za-z0-9_-]` remain, one character per UTF-16 code unit of the input, and a string of such characters is unchanged |
| Naming.ReplaceInvalidAppend | docs/script.js:322 | the replacement of a concatenation is the concatenation of the replacements |
| Naming.ReplaceInvalidChar | docs/script.js:322 | an allowed character is kept, any other becomes one `_` per UTF-16 code unit |
| Naming.Truncate | docs/script.js:323 | the result is the prefix of length 50, or the whole string when it is no longer |
| Naming.CollapseUnderscores | docs/script.js:324 | no `__` remains, the allowed characters stay allowed, the first and last characters are kept, and a string without `__` is unchanged |
| Naming.CollapseKeepsOthers | docs/script.js:324 | the characters other than `_` are the same and in the same order |
| Naming.CollapseRun | docs/script.js:324 | a run of one or more `_` becomes a single `_` |
| Naming.CollapseAppend | docs/script.js:324 | collapsing a concatenation that does not split a run of `_` collapses each part on its own |
| Naming.StripEdgeUnderscores | docs/script.js:325 | the result is the input without its first character if that is `_` and then without its last if that is `_`; with no `__` in the input it neither starts nor ends with `_` |
| Naming.TruncateBeforeCollapse | docs/script.js:322-325 | 48 letters followed by `___b` sanitise to the letters alone, while collapsing before truncating would keep `_b` |
| Naming.LettersThenRun | docs/script.js:322-325 | the same for any 48 lower-case letters |
| Naming.Sanitize | docs/script.js:321-325 | the stem has only `[A-Za-z0-9_-]`, at most 50 characters, no `__`, and no `_` at either end |
| Naming.SanitizeFixesStems | docs/script.js:321-325 | sanitising leaves a string unchanged exactly when it already is such a stem |
| Naming.SanitizeIdempotent | docs/script.js:321-325 | sanitising a stem again changes nothing |
| Naming.Decimal | docs/script.js:333 | `String(n)` is a non-empty string of decimal digits |
| Naming.DecimalRoundTrip | docs/script.js:333 | the decimal digits of `n` read back as `n` |
| Naming.PadStart | docs/script.js:333 | `padStart` gives the string right-aligned in at least `width` characters, filled on the left |
| Naming.SequenceNumber | docs/script.js:333 | the position tag has at least 4 digits, and exactly 4 below 10000 |
| Naming.SequenceNumberValue | docs/script.js:333 | the position tag reads back as `index + 1` |
| Naming.SequentialNameInjective | docs/script.js:333 | equal sequential filenames have the same stem and the same position |
| Naming.SequentialNamesDistinct | docs/script.js:329-334 | under the position policy two different positions never share a filename, whatever the codes |
| Naming.HashNameIgnoresPosition | docs/script.js:329-331 | under the hash policy the filename depends only on the code |
| Naming.FileNameShape | docs/script.js:329-334 | every filename is the stem, `_`, a non-empty tag, and `.png` |
| Naming.ToInt32 | docs/script.js:342 | `hash & hash` gives the int32 value congruent to its argument modulo 2^32 |
| Naming.ShiftSubtractStep | docs/script.js:341-342 | `(hash << 5) - hash + char`, wrapped, equals `31*hash + char` wrapped |
| Naming.Hex | docs/script.js:344 | `toString(16)` is a non-empty string of lower-case hex digits with no leading zero |
| Naming.HexRoundTrip | docs/script.js:344 | the hex digits of `n` read back as `n` |
| Naming.HashStringShape | docs/script.js:344 | the hash has 1 to 8 lower-case hex digits, so `substring(0, 8)` never cuts |
| Naming.HashOfEmpty | docs/script.js:337-345 | the hash of the empty code is `"0"` |
| Naming.HashLargestMagnitude | docs/script.js:344 | the largest magnitude, `abs(-2^31)`, renders as `"80000000"`, 8 digits |
| Naming.SimpleHash | docs/script.js:337-345 | the loop computes the wrapped rolling hash of the UTF-16 code units, rendered as 1 to 8 hex digits |
| Naming.PolicyOf | docs/script.js:327-329 | the select value `hash` chooses the hash tag, every other value the position tag |
| Naming.GenerateFilename | docs/script.js:319-335 | for the select value it is given, the filename is built by the sanitise-then-tag construction whose properties the lemmas above state |
| Duplicates.Repeats | docs/script.js:383-396 | the duplicate list is no longer than the input and holds only input codes |
| Duplicates.FindDuplicates | docs/script.js:383-396 | the `seen`-set loop returns, in order, every code that already occurred earlier |
| Duplicates.RepeatsCount | docs/script.js:383-396 | the number of duplicates is the list length minus the number of distinct codes |
| Duplicates.RepeatsMultiplicity | docs/script.js:383-396 | a code occurring k > 0 times is reported k - 1 times |
| Duplicates.RepeatsExample | docs/script.js:383-396 | `["A", "B", "A", "A"]` reports `["A", "A"]` |
| Duplicates.CountBlank | docs/script.js:357 | the blank count is the number of positions whose code trims to empty, so it is 0 exactly when none does |
| Duplicates.BlankCountOfTrimmed | docs/script.js:357 | normalised codes have no blank lines |
| Raster.ModuleSize | docs/script.js:271 | for `n >= 1` the module size is the largest `ms` with `ms*n <= size - 2*margin`, which is `Math.floor` of the quotient |
| Raster.FillRect | docs/script.js:278 | `fillRect` paints exactly the pixels of the rectangle that lie on the canvas, and leaves the others as they were |
| Raster.GridFits | docs/script.js:271 | with `2*margin <= size` the module size is non-negative and `n` modules fit in `size - 2*margin` |
| Raster.SquareWithinMargins | docs/script.js:285-287 | every module square lies within `[margin, size - margin]` on each axis |
| Raster.PaintedIffInDarkSquare | docs/script.js:282-290 | a pixel is dark exactly when it lies inside the square of a dark module |
| Raster.PaintedWithinMargins | docs/script.js:271-290 | no dark pixel falls in the margin |
| Raster.DrawModules | docs/script.js:271-290 | the nested row/column loop over a light canvas gives a `size × size` picture whose every pixel has the colour the geometry predicts |
| Batch.GeneratedPlusFailed | docs/script.js:254-316 | every code is either counted as generated or failed to render |
| Batch.ArchiveKeys | docs/script.js:301-308 | the archive holds exactly the filenames of the previews added |
| Batch.PreviewsIndexed | docs/script.js:298-308 | each preview carries the code of some position and the filename for that position |
| Batch.DistinctNamesArchiveSize | docs/script.js:298-301 | when positions never share a name, the archive has one file per generated code |
| Batch.SequentialArchiveSize | docs/script.js:298-301 | under the position policy no archive entry is overwritten |
| Batch.ArchiveLastWriteWins | docs/script.js:301 | the archive holds a code's blob under its filename unless a later rendered code has the same filename |
| Batch.HashedRepeatOverwrites | docs/script.js:298-301 | under the hash policy two equal codes count as two generated QR codes but leave one file |
| Batch.Percent | docs/script.js:348 | the percentage is the nearest integer to `100*done/total`, halves rounded up |
| Batch.PercentRange | docs/script.js:348 | while the count does not exceed the total, the percentage stays in 0..100; it is 0 at the start and 100 at the end |
| Batch.Shown | docs/script.js:310-311 | one percentage is shown for each count from `start + 1` to `end` |
| Batch.ShownRange | docs/script.js:347-353 | from a count of 0, with no more codes generated than the total, every percentage shown lies in 0..100, and the last is 100 when every code was generated |
| Batch.QRCodeGenerator.constructor | docs/script.js:2-10 | the initial state is empty, with no archive |
| Batch.QRCodeGenerator.StartGeneration | docs/script.js:198-229 | a blank text only resets the running flag; otherwise the codes are the normalised lines, and the count, flags, previews and archive are reset |
| Batch.QRCodeGenerator.GenerateQRCode | docs/script.js:254-316 | the step does nothing and shows no progress when cancelled on entry or when rendering fails; otherwise it adds the code's file under the name for the select value, as below |
| Batch.QRCodeGenerator.AddToArchive | docs/script.js:298-311 | without an archive `zip.file` throws and nothing changes; otherwise the blob goes under the filename, one preview is appended, the count rises by one and the percentage of the new count is shown |
| Batch.QRCodeGenerator.ProcessAllCodes | docs/script.js:246-252 | after all the steps, the archive and previews are those of the whole code list in order, and one percentage was shown per generated code, for the counts in turn; nothing changes and nothing is shown when cancelled or without an archive |
| Batch.QRCodeGenerator.FinishGeneration | docs/script.js:355-381 | unless cancelled, the summary reports generated, total, duplicate and blank counts, and generation stops |
| Batch.QRCodeGenerator.CancelGeneration | docs/script.js:429-433 | sets the cancel flag, clears the running flag, changes nothing else |
| Batch.QRCodeGenerator.ResetGeneration | docs/script.js:435-439 | clears the running flag, changes nothing else |
| Batch.QRCodeGenerator.ClearAll | docs/script.js:441-450 | codes, archive, counters, previews and preview flag are reset; the running and cancel flags are kept |
| Batch.QRCodeGenerator.GenerateQRCodes | docs/script.js:198-230 | a whole run either rejects blank input, changing only the running flag, or leaves the archive and previews of the normalised codes with the preview flag off, `generatedCount` equal to the number of previews and at most `totalCount`, and every percentage shown in 0..100 (the last 100 when every code rendered); it completes with a summary (no blank lines) unless cancelled |

## Left out

- DOM and presentation are not modelled: element lookup, event binding, tabs, the preview grid and modal, `showMessage` with its timers, and the HTML of the results text.
- File reading (`FileReader`) and the `handleFileUpload` wiring are not modelled; `parseFileContent` works on a given string.
- The QR encoder, canvas `toBlob`/`toDataURL` and JSZip are external. The module grid is an input of `Raster.DrawModules`, each code's rendering comes from the `render` parameter, and the archive is a map.
- `downloadZip` is left out: it generates the ZIP, creates an object URL and names the file by the current date, all of which is I/O and clock.
- `formatFileSize` is left out because it is floating-point logarithm and formatting.
- `getGenerationOptions` is left out: `parseInt` of form fields is DOM input. Size and margin enter as naturals, and the value of the filename select enters as the string `pattern` (`Naming.PolicyOf` maps it to the tag).
- Batch.QRCodeGenerator.ProcessAllCodes: one select value serves the whole run. The code reads the select inside `generateFilename` (docs/script.js:327), after each task's `await` (docs/script.js:293), so changing the select during a run would name the codes that finish later under the other policy; that is not modelled.
- The tasks that `Promise.all` runs concurrently are modelled as a sequential loop in input order. Preview order by completion time is therefore not modelled, and neither are interleavings with a new batch started after a cancel. Tasks of the cancelled batch still finishing can then push `generatedCount` past `totalCount`.
- Batch.QRCodeGenerator.GenerateQRCodes: the user's cancel click enters as the parameter `cancelled`, applied after all the steps; since every step has already passed its cancel test by then, the final state is the same as for a click at any later await.
- Batch.Percent: exact rational rounding, not the floating-point `generatedCount / totalCount * 100`. The two can differ at a half: for 23 of 40 the code computes `Math.round(57.49999999999999)`, which is 57, where the model gives 58. It requires `total > 0`, which holds whenever the code calls `updateProgress` (a step succeeds only with an archive, which only exists with a non-empty code list).
- Raster.DrawModules: requires `2*margin <= size`, because the code never validates the options and a negative module size would make `fillRect` paint mirrored rectangles; a grid with no modules draws nothing.
- JsString.ToLower: only ASCII letters are lower-cased; the full Unicode case mapping of `toLowerCase` is not modelled.
- Strings are sequences of Unicode scalar values. `Utf16Units` gives `charCodeAt`'s view for the hash, and the sanitising regex replaces each UTF-16 unit of a character outside the BMP with its own `_`.
