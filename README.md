# Recurrence analysis of eye-tracking fixations — verified Dafny model

The application reads eye-tracking fixations from CSV files. Each fixation has an id, a
timestamp, a list of area-of-interest (AOI) labels and, optionally, x/y coordinates. It builds
binary recurrence matrices over the fixation sequence, computes recurrence-quantification (RQA)
ratios from such a matrix, and assigns display colours to AOI labels. The repository carries
two copies of most helpers:

- `src/lib/utils/`, the current copy;
- `src/lib/utility/`, an older copy with different behaviour.

Both are modelled. The older copy's modules are prefixed `Legacy`.

| Dafny module | models |
|---|---|
| `Fixations` | the `Fixation` record (with optional `x`/`y`, which the code reads and writes) and the file's group of fixations |
| `Matrices` | shape, 0/1, unit-diagonal and symmetry predicates on `array2<int>` (the model of `number[][]`) |
| `RecurrenceMatrix` | `computeRecurrenceMatrix`, `euclideanDistance` and `computeEuclideanRecurrenceMatrix` of `src/lib/utils/recurrenceMatrix.ts` |
| `LegacyRecurrenceMatrix` | `computeRecurrenceMatrix` of `src/lib/utility/recurrenceMatrix.ts` |
| `RecurrenceMetrics` | `computeRQAMetrics` of `src/lib/utility/recurrenceMetrics.ts` |
| `ColorUtils` | `assignRandomColorToAoi`, `getUniqueAois`, `hexToRgb`, `rgbToHex` and `createColorGradient` of `src/lib/utils/colorUtils.ts` |
| `LegacyColorUtils` | `assignRandomColorToAoi` and `getUniqueAois` of `src/lib/utility/colorUtils.ts` |
| `CsvText` | text handling both `csvUtils.ts` copies share: blank-line removal, header, cells, AOI splitting, file label, first-failure combination, ".csv" selection |
| `CsvUtils` | `parseCSVFile` and `handleFileUpload` of `src/lib/utils/csvUtils.ts` |
| `LegacyCsvUtils` | `parseCSVFile` and `handleFileUpload` of `src/lib/utility/csvUtils.ts` |
| `Text`, `Sequences`, `Wrappers` | the JavaScript string and array built-ins the code relies on (`trim`, `split`, `includes`, `endsWith`, `replace`, `toLowerCase`, `findIndex`, `filter`, `Set`, `sort`), and `Option`/`Result` |

The matrix builders and the RQA counter are methods over `array2<int>` with nested `for`
loops. Their postconditions give every cell, or the result, in terms of specification
functions (`AoiCell`, `EuclideanCell`, `GroupOf`, `Count`, `MetricsOf`). The properties the
code promises are proved as lemmas about those functions. The grouping pass and
`createColorGradient` are methods too, because the code builds its array in a loop. The colour
helpers and the CSV pipeline are pure `map`/`filter`/`split` expressions in the code, so they
are functions here.

Where the code can throw, the result is a `Result` with a `CsvError`:

- `Error(message)` for the two `throw new Error(...)` sites;
- `NoHeaderLine` for the `TypeError` raised by `nonEmptyLines[0].toLowerCase()` on text with no non-blank line;
- `MissingAoiCell(row)` for the `TypeError` raised by `columns[aoiIndex].split` on a data line that is too short.

## Model

| member | source | states |
|---|---|---|
| Fixations.FixationLabels | src/lib/utility/colorUtils.ts:20 | the flattened label list holds exactly the labels of the given fixations |
| Fixations.FixationLabelsCons | src/lib/utility/colorUtils.ts:20 | the first fixation's labels come first, in their own order, followed by the labels of the rest |
| Fixations.FixationLabelsConcat | src/lib/utility/colorUtils.ts:20 | flattening a concatenation is the concatenation of the two flattenings: order and multiplicity are kept |
| Fixations.AllFixations | src/lib/utility/colorUtils.ts:20 | the flattened fixation list holds exactly the fixations of the given groups |
| Fixations.AllFixationsCons | src/lib/utility/colorUtils.ts:20 | the first group's fixations come first, in their own order, followed by the fixations of the rest |
| Fixations.AllFixationsConcat | src/lib/utility/colorUtils.ts:20 | flattening a concatenation of groups is the concatenation of the two flattenings: order and multiplicity are kept |
| Fixations.GroupLabelsMembership | src/lib/utils/colorUtils.ts:26-28 | a label occurs in the group → fixation → label traversal iff some fixation of some group carries it |
| RecurrenceMatrix.SharesLabel | src/lib/utils/recurrenceMatrix.ts:21 | true iff some non-empty label of the first list occurs in the second |
| RecurrenceMatrix.SharesLabelSymmetric | src/lib/utils/recurrenceMatrix.ts:21 | sharing a non-empty label does not depend on the order of the two lists |
| RecurrenceMatrix.AoiCell | src/lib/utils/recurrenceMatrix.ts:17-22 | a cell is 0 or 1, and it is 1 iff i = j or the two fixations carry a common non-empty label |
| RecurrenceMatrix.AoiCellSymmetric | src/lib/utils/recurrenceMatrix.ts:15-24 | cell (i, j) equals cell (j, i) |
| RecurrenceMatrix.UnlabelledRecursOnlyWithItself | src/lib/utils/recurrenceMatrix.ts:21 | a fixation whose labels are all "" has 0 in its row and column off the diagonal |
| RecurrenceMatrix.ComputeRecurrenceMatrix | src/lib/utils/recurrenceMatrix.ts:11-27 | returns an n×n matrix whose every cell is `AoiCell`; hence 0/1, unit diagonal and symmetric |
| RecurrenceMatrix.EuclideanDistance | src/lib/utils/recurrenceMatrix.ts:36-42 | the distance is the 999 sentinel iff one of the four coordinates is missing or 0 (JavaScript falsiness, `Truthy`); otherwise the squared distance is non-negative |
| RecurrenceMatrix.BelowMeansRootBelow | src/lib/utils/recurrenceMatrix.ts:67 | `Below`, the comparison `distance < threshold` used by `Close`, holds on a root exactly when the non-negative square root is below the threshold |
| RecurrenceMatrix.DistanceSymmetric | src/lib/utils/recurrenceMatrix.ts:36-42 | the distance does not depend on the order of the two fixations |
| RecurrenceMatrix.SentinelNeverClose | src/lib/utils/recurrenceMatrix.ts:37 | with a threshold ≤ 999, a pair with a missing or 0 coordinate is never within the threshold |
| RecurrenceMatrix.GroupOf | src/lib/utils/recurrenceMatrix.ts:61-73 | group of fixation 0 is 0; fixation i keeps the group of i-1 when close to it, else takes the next index; each group index is ≤ i |
| RecurrenceMatrix.GroupsMonotone | src/lib/utils/recurrenceMatrix.ts:61-73 | group indices never decrease along the sequence |
| RecurrenceMatrix.SameGroupIff | src/lib/utils/recurrenceMatrix.ts:61-73 | fixations i ≤ j share a group iff every fixation after i up to j is close to its predecessor (groups are contiguous runs) |
| RecurrenceMatrix.SentinelStartsGroup | src/lib/utils/recurrenceMatrix.ts:37-72 | with threshold ≤ 999, a fixation with a missing/0 coordinate, or one right after it, opens a new group |
| RecurrenceMatrix.AssignGroups | src/lib/utils/recurrenceMatrix.ts:61-73 | the loop leaves n group indices, index i equal to `GroupOf` i |
| RecurrenceMatrix.EuclideanCell | src/lib/utils/recurrenceMatrix.ts:78-89 | a cell of the proximity matrix is 0 or 1 |
| RecurrenceMatrix.EuclideanCellSymmetric | src/lib/utils/recurrenceMatrix.ts:76-91 | cell (i, j) equals cell (j, i) |
| RecurrenceMatrix.EuclideanCellIff | src/lib/utils/recurrenceMatrix.ts:84-88 | for i < j the cell is 1 iff the pair is within the threshold and fixations i and j are in different groups |
| RecurrenceMatrix.ConsecutiveNeverRecurrent | src/lib/utils/recurrenceMatrix.ts:67-85 | cells (i, i+1) and (i+1, i) are always 0 |
| RecurrenceMatrix.SentinelNeverRecurrent | src/lib/utils/recurrenceMatrix.ts:37-87 | with threshold ≤ 999, a fixation with a missing/0 coordinate is recurrent only with itself |
| RecurrenceMatrix.ComputeEuclideanRecurrenceMatrix | src/lib/utils/recurrenceMatrix.ts:54-94 | returns an n×n matrix (empty for n = 0) whose every cell is `EuclideanCell`; 0/1, unit diagonal, symmetric, 0 on consecutive pairs |
| RecurrenceMatrix.ComputeEuclideanRecurrenceMatrixDefault | src/lib/utils/recurrenceMatrix.ts:54 | called without a threshold, the builder uses 100: every cell is `EuclideanCell` at threshold 100 |
| LegacyRecurrenceMatrix.ComputeRecurrenceMatrix | src/lib/utility/recurrenceMatrix.ts:11-27 | returns an n×n matrix equal cell by cell to the current copy's `AoiCell`, hence 0/1, unit diagonal and symmetric |
| RecurrenceMetrics.Divide | src/lib/utility/recurrenceMetrics.ts:32-34 | JavaScript division of counts: finite iff the denominator is positive, and then the quotient; 0/0 is NaN; anything else is Infinity |
| RecurrenceMetrics.MetricsOf | src/lib/utility/recurrenceMetrics.ts:31-35 | the recurrence rate is NaN iff the matrix is empty; determinism and laminarity are NaN iff no cell is 1 |
| RecurrenceMetrics.RowCount | src/lib/utility/recurrenceMetrics.ts:14-28 | the cells of a row prefix that match a pattern number at most the prefix length |
| RecurrenceMetrics.Count | src/lib/utility/recurrenceMetrics.ts:13-29 | the matching cells of the first rows number at most rows · n |
| RecurrenceMetrics.DivideInUnitInterval | src/lib/utility/recurrenceMetrics.ts:32-34 | a count divided by a positive count at least as large is a finite number in [0, 1] |
| RecurrenceMetrics.RowCountBelowRecurrent | src/lib/utility/recurrenceMetrics.ts:15-26 | per row, the diagonal and vertical counts never exceed the 1-cell count |
| RecurrenceMetrics.CountBelowRecurrent | src/lib/utility/recurrenceMetrics.ts:15-26 | `diagonalLines` ≤ `recurrenceRate` and `verticalLines` ≤ `recurrenceRate` at every row boundary |
| RecurrenceMetrics.RowCountPositive | src/lib/utility/recurrenceMetrics.ts:15-16 | a 1-cell in a row prefix makes that row's count positive |
| RecurrenceMetrics.UnitDiagonalCount | src/lib/utility/recurrenceMetrics.ts:13-16 | with every diagonal cell 1, the first k rows hold at least k 1-cells |
| RecurrenceMetrics.MetricsRange | src/lib/utility/recurrenceMetrics.ts:31-35 | no ratio is Infinity; the recurrence rate is in [0, 1] for n ≥ 1; determinism and laminarity are in [0, 1] when some cell is 1; n = 0 gives NaN, NaN, NaN |
| RecurrenceMetrics.UnitDiagonalMetricsFinite | src/lib/utility/recurrenceMetrics.ts:31-35 | on a matrix with unit diagonal and n ≥ 1 no denominator is 0, so all three ratios are finite |
| RecurrenceMetrics.IdentityRowCounts | src/lib/utility/recurrenceMetrics.ts:14-28 | in row i of the identity the only 1-cell is column i, a diagonal continuation iff i > 0, never vertical |
| RecurrenceMetrics.IdentityCounts | src/lib/utility/recurrenceMetrics.ts:13-29 | the identity has n 1-cells, n-1 diagonal continuations and no vertical ones |
| RecurrenceMetrics.IdentityMetrics | src/lib/utility/recurrenceMetrics.ts:13-34 | on the n×n identity the result is 1/n, (n-1)/n, 0 |
| RecurrenceMetrics.RateOfN | src/lib/utility/recurrenceMetrics.ts:32 | n 1-cells out of n·n give a recurrence rate of 1/n |
| RecurrenceMetrics.CancelSquare | src/lib/utility/recurrenceMetrics.ts:32 | x / (x·x) = 1 / x for positive x |
| RecurrenceMetrics.ComputeRqaMetrics | src/lib/utility/recurrenceMetrics.ts:7-36 | the nested counting loop returns exactly `MetricsOf` the matrix (which it only reads), with the ranges of `MetricsRange` |
| ColorUtils.AssignRandomColorToAoi | src/lib/utils/colorUtils.ts:1-22 | keeps length and labels in order; "No AOI" gets #BBBBBB, any other label at position k gets palette entry k mod 12 |
| ColorUtils.PaletteDistinct | src/lib/utils/colorUtils.ts:3-16 | the palette has 12 different colours, none of them the "No AOI" grey |
| ColorUtils.GreyOnlyForNoAoi | src/lib/utils/colorUtils.ts:20 | an entry is grey iff its label is "No AOI" |
| ColorUtils.PaletteCycle | src/lib/utils/colorUtils.ts:20 | two ordinary labels fewer than 12 apart get different colours; 12 apart, the same colour |
| ColorUtils.ModTwelve | src/lib/utils/colorUtils.ts:20 | positions fewer than 12 apart have different residues mod 12; 12 apart, the same |
| ColorUtils.GetUniqueAois | src/lib/utils/colorUtils.ts:24-37 | the result ends with "No AOI"; the entries before it are distinct, non-empty, trimmed, and exactly the non-empty trimmed forms of the input labels |
| ColorUtils.UniqueLabels | src/lib/utils/colorUtils.ts:26-33 | the sorted labels are distinct, non-empty, trimmed, and exactly the non-empty trimmed forms of the input labels |
| ColorUtils.SortMembership | src/lib/utils/colorUtils.ts:33 | sorting keeps exactly the values of its input |
| ColorUtils.TrimmedMembership | src/lib/utils/colorUtils.ts:29 | the trimmed list holds exactly the trimmed forms of the labels, each trimmed |
| ColorUtils.SortedLabelsMembership | src/lib/utils/colorUtils.ts:26-33 | after trim, filter, de-duplication and sort, the list holds exactly the non-empty trimmed labels, each non-empty and trimmed |
| ColorUtils.GetUniqueAoisSorted | src/lib/utils/colorUtils.ts:33 | when the comparator is a total preorder, the entries before "No AOI" are sorted by it |
| ColorUtils.HexValue | src/lib/utils/colorUtils.ts:45-47 | a hexadecimal digit has a value below 16 |
| ColorUtils.HexChar | src/lib/utils/colorUtils.ts:54 | the digit written for a value below 16 is a hex digit that reads back as that value |
| ColorUtils.HexCharOfValue | src/lib/utils/colorUtils.ts:45-54 | reading a digit and writing it back gives that digit in lower case |
| ColorUtils.HexDigitsOf | src/lib/utils/colorUtils.ts:42 | the pattern matches iff the text is six hex digits of either case, optionally after one '#'; the captured digits are those six |
| ColorUtils.PairValue | src/lib/utils/colorUtils.ts:45-47 | a two-digit capture group reads as a value at most 255 |
| ColorUtils.HexToRgb | src/lib/utils/colorUtils.ts:41-50 | every component is in 0..255, and a non-matching text gives [0, 0, 0] |
| ColorUtils.NatToHex | src/lib/utils/colorUtils.ts:54 | `toString(16)` of a natural number is at least one hex digit; one digit below 16, two below 256 |
| ColorUtils.IntToHex | src/lib/utils/colorUtils.ts:54 | `toString(16)` of an integer starts with '-' iff it is negative; otherwise it is hex digits only |
| ColorUtils.PadStart2 | src/lib/utils/colorUtils.ts:54 | `padStart(2, '0')` gives length max(2, length) and keeps the original text at the end |
| ColorUtils.ComponentHex | src/lib/utils/colorUtils.ts:54 | a component is written with at least two characters, exactly two hex digits for a byte |
| ColorUtils.RgbToHex | src/lib/utils/colorUtils.ts:52-56 | the colour starts with '#' and has at least seven characters, exactly seven for bytes |
| ColorUtils.ByteChars | src/lib/utils/colorUtils.ts:54 | a byte is written as exactly two lower-case hex digits |
| ColorUtils.ByteHex | src/lib/utils/colorUtils.ts:54 | for a byte, round + `toString(16)` + `padStart` gives its two digits |
| ColorUtils.RgbToHexChars | src/lib/utils/colorUtils.ts:52-56 | for bytes, `rgbToHex` is '#' followed by the three two-digit groups |
| ColorUtils.RgbToHexFormat | src/lib/utils/colorUtils.ts:52-56 | for bytes, `rgbToHex` gives seven characters: '#' and six lower-case hex digits |
| ColorUtils.HexPairsFormat | src/lib/utils/colorUtils.ts:53-55 | '#' and three lower-case digit pairs form a seven-character lower-case hex colour |
| ColorUtils.PairValueOfByte | src/lib/utils/colorUtils.ts:45-54 | reading the two digits written for a byte gives the byte |
| ColorUtils.HexToRgbOfRgbToHex | src/lib/utils/colorUtils.ts:41-56 | `hexToRgb(rgbToHex(r, g, b))` = [r, g, b] for components in 0..255 |
| ColorUtils.HexToRgbOfPairs | src/lib/utils/colorUtils.ts:42-48 | '#' and three digit pairs parse to the values of the pairs |
| ColorUtils.PairDigits | src/lib/utils/colorUtils.ts:45-47 | the two digits of a parsed pair are its value div 16 and mod 16 |
| ColorUtils.PairRoundTrip | src/lib/utils/colorUtils.ts:45-54 | writing a parsed pair gives the pair in lower case |
| ColorUtils.RgbToHexOfHexToRgb | src/lib/utils/colorUtils.ts:41-56 | `rgbToHex(hexToRgb(h))` = '#' + the six digits of h in lower case, for every matching h |
| ColorUtils.LowerPairs | src/lib/utils/colorUtils.ts:54 | lower-casing six characters is lower-casing them two at a time |
| ColorUtils.StepRatios | src/lib/utils/colorUtils.ts:87-91 | the step ratios start at 0, end at 1 and increase strictly |
| ColorUtils.CreateColorGradient | src/lib/utils/colorUtils.ts:81-97 | [startColor] when steps < 2; otherwise exactly `steps` colours, the i-th blended at ratio i·(1/(steps-1)) |
| LegacyColorUtils.AssignRandomColorToAoi | src/lib/utility/colorUtils.ts:1-17 | keeps length and labels in order; position k gets palette entry k mod 7 whatever its label |
| LegacyColorUtils.ColorCycle | src/lib/utility/colorUtils.ts:3-16 | colours repeat with period 7, differ between entries fewer than 7 apart, and the grey goes exactly to positions ≡ 6 mod 7 |
| LegacyColorUtils.ModSeven | src/lib/utility/colorUtils.ts:15 | positions fewer than 7 apart have different residues mod 7; 7 apart, the same |
| LegacyColorUtils.GetUniqueAois | src/lib/utility/colorUtils.ts:19-21 | no duplicates; exactly the labels of the traversal, untrimmed and "" included |
| LegacyColorUtils.GetUniqueAoisMembership | src/lib/utility/colorUtils.ts:20 | a label is listed iff some fixation of some group carries it |
| LegacyColorUtils.GetUniqueAoisOrder | src/lib/utility/colorUtils.ts:20 | labels are listed in the order of their first occurrence in the traversal |
| Text.TrimEmptyIffBlank | src/lib/utils/csvUtils.ts:14 | `trim()` is empty iff the line is whitespace only |
| Text.Trim | src/lib/utils/colorUtils.ts:29 | `trim` gives the slice of the text after its leading whitespace, with only whitespace after it and no whitespace at either end |
| Text.TrimAll | src/lib/utils/csvUtils.ts:34 | mapping `trim` keeps the length and trims each string in place |
| Text.TrimIdempotent | src/lib/utils/csvUtils.ts:34 | trimming twice is trimming once |
| Text.IndexOf | src/lib/utils/csvUtils.ts:11 | the first position of the separator, or -1 when it does not occur |
| Text.Split | src/lib/utils/csvUtils.ts:11 | `split` gives at least one piece, none containing the separator |
| Text.JoinSplit | src/lib/utils/csvUtils.ts:11 | joining the pieces of a split with the separator gives back the text |
| Text.SplitJoin | src/lib/utils/csvUtils.ts:11 | splitting the join of pieces free of the separator gives back the pieces |
| Text.Contains | src/lib/utils/csvUtils.ts:20-23 | `includes` holds iff the pattern occurs at some position |
| Text.EndsWith | src/lib/utils/csvUtils.ts:67 | `endsWith` holds iff the text is some string followed by the suffix |
| Text.RemoveFirst | src/lib/utils/csvUtils.ts:57 | `replace` with a string pattern leaves the text unchanged when the pattern is absent; otherwise it cuts out the pattern at its first occurrence, and nothing else |
| Text.RemoveSuffix | src/lib/utils/csvUtils.ts:57 | a name ending in ".csv" with no earlier ".csv" loses exactly that suffix |
| Text.RemoveFirstOnlyOnce | src/lib/utils/csvUtils.ts:57 | only the first occurrence is removed: "a.csv.csv" becomes "a.csv" |
| Text.Lower | src/lib/utils/csvUtils.ts:17 | `toLowerCase` keeps the length and lowers each character |
| Text.FindIndexFrom | src/lib/utils/csvUtils.ts:20-23 | the result is the first cell from the start position containing the pattern, or -1 when none does |
| Text.FindIndex | src/lib/utils/csvUtils.ts:20-23 | `findIndex(col => col.includes(pat))` is the first cell containing the pattern, or -1 when none does |
| Sequences.Dedup | src/lib/utility/colorUtils.ts:20 | `[...new Set(s)]` has no duplicates and the same values as s |
| Sequences.DedupFirstOccurrenceOrder | src/lib/utility/colorUtils.ts:20 | `[...new Set(s)]` lists values in the order of their first occurrence |
| Sequences.Filter | src/lib/utils/csvUtils.ts:14 | `filter` keeps exactly the values satisfying the predicate, and is no longer than its input |
| Sequences.FilterCount | src/lib/utils/csvUtils.ts:14 | a passing value is kept as often as it occurs; a failing one never |
| Sequences.FilterConcat | src/lib/utils/csvUtils.ts:14 | filtering a concatenation is the concatenation of the filtered parts, so the kept values stay in order |
| Sequences.FilterFirst | src/lib/utils/csvUtils.ts:14 | the result starts with the first passing value and continues with the filtered remainder after it |
| Sequences.Sort | src/lib/utils/csvUtils.ts:75 | `sort` returns a permutation of its input |
| Sequences.SortSorted | src/lib/utils/csvUtils.ts:75 | with a total-preorder comparator, the sorted list is ordered by it |
| Sequences.SortKeepsDistinct | src/lib/utils/colorUtils.ts:33 | sorting a duplicate-free list keeps it duplicate-free |
| CsvText.NonBlankLines | src/lib/utils/csvUtils.ts:11-14 | no more lines are kept than the text has |
| CsvText.NonBlankLinesSpec | src/lib/utils/csvUtils.ts:11-14 | a line is kept iff it is a line of the text that is not whitespace only, and then as many times as the text has it |
| CsvText.NonBlankLinesFirst | src/lib/utils/csvUtils.ts:14-17 | the header is the first line that is not whitespace only, and the data lines are the non-blank lines after it, in order |
| CsvText.NoHeaderIffBlank | src/lib/utils/csvUtils.ts:14-17 | there is no header line iff every line of the text is whitespace only |
| CsvText.Header | src/lib/utils/csvUtils.ts:17 | the header cells are free of ',' and join back into the lower-cased line, so (with `Text.SplitJoin`) they are exactly its ','-pieces; at least one cell |
| CsvText.Cell | src/lib/utils/csvUtils.ts:34-39 | `columns[index]` is defined iff the index is in range, and is that cell |
| CsvText.ParseCell | src/lib/utils/csvUtils.ts:39 | `parseInt`/`parseFloat` of an undefined cell is NaN; of a present cell, what the parser gives |
| CsvText.ParseAois | src/lib/utils/csvUtils.ts:34 | one label per ';'-piece of the AOI cell, label k being the trim of piece k; at least one, none containing ';' |
| CsvText.FileLabel | src/lib/utils/csvUtils.ts:57 | the label is the name when it has no ".csv", else the name with its first ".csv" cut out |
| CsvText.IsCsvName | src/lib/utils/csvUtils.ts:67 | a file is selected iff its name is some base followed by ".csv" |
| CsvText.ParseRows | src/lib/utils/csvUtils.ts:30-54 | succeeds iff every data line parses, giving one fixation per line in order; a failure names the position of a line |
| CsvText.ParseRowsFirstFailure | src/lib/utils/csvUtils.ts:30-34 | the failure names the first line that does not parse |
| CsvText.ParseAll | src/lib/utils/csvUtils.ts:74 | all files parse iff the result succeeds, with one group per file in order; a failure is some file's failure |
| CsvText.CsvFiles | src/lib/utils/csvUtils.ts:67 | keeps exactly the files whose names end with ".csv" |
| CsvText.UploadCsvFiles | src/lib/utils/csvUtils.ts:66-74 | "No CSV files selected" when no name ends with ".csv"; otherwise success iff every ".csv" file parses, group k from the k-th ".csv" file |
| CsvText.NoCsvFilesIff | src/lib/utils/csvUtils.ts:67-71 | when parsing can never raise "No CSV files selected", that error comes back iff no name ends with ".csv" |
| CsvUtils.FindColumns | src/lib/utils/csvUtils.ts:20-23 | each of timestamp, aoi, x and y is the position of the first header cell containing its name, or -1 iff no cell contains it |
| CsvUtils.ParseRow | src/lib/utils/csvUtils.ts:30-54 | fails iff the AOI cell is missing; id = position + 1; labels from the AOI cell; timestamp parsed; x and y both or neither, present iff both columns exist and both cells parse |
| CsvUtils.RowParser | src/lib/utils/csvUtils.ts:30-54 | the `map` callback fails on a line iff the line has no AOI cell, and otherwise gives id = position + 1 |
| CsvUtils.ParseLines | src/lib/utils/csvUtils.ts:14-62 | no lines → header failure; missing timestamp or aoi column → its message; success gives the file label and one fixation per data line |
| CsvUtils.ParseCsvFile | src/lib/utils/csvUtils.ts:9-63 | the header read fails iff every line of the text is whitespace only |
| CsvUtils.ParseLinesRows | src/lib/utils/csvUtils.ts:30-41 | fixation k comes from data line k, with id k + 1, its trimmed ';'-split labels and x, y together |
| CsvUtils.MissingAoiCellFails | src/lib/utils/csvUtils.ts:30-34 | the first data line with too few cells for the AOI column makes the file fail with its position |
| CsvUtils.ParseLinesSuccessIff | src/lib/utils/csvUtils.ts:17-34 | a file's lines parse iff there is a header, it names timestamp and aoi, and every data line has a cell at the AOI position |
| CsvUtils.RowsSucceedIff | src/lib/utils/csvUtils.ts:30-34 | over the data lines, every row parses iff every line has a cell at the AOI position |
| CsvUtils.RowsFailAt | src/lib/utils/csvUtils.ts:30-34 | over the data lines, the first line too short for the AOI column is the one named |
| CsvUtils.ShortRowFails | src/lib/utils/csvUtils.ts:30-34 | a data line fails iff it has no more cells than the AOI column's position |
| CsvUtils.FileParser | src/lib/utils/csvUtils.ts:74 | parsing one file never raises "No CSV files selected", and a parsed group carries the file's label |
| CsvUtils.HandleFileUpload | src/lib/utils/csvUtils.ts:65-80 | fails exactly as the parse of the ".csv" files does; on success a permutation of the parsed groups, one per ".csv" file |
| CsvUtils.NoCsvFilesIff | src/lib/utils/csvUtils.ts:67-71 | "No CSV files selected" is raised iff no file name ends with ".csv" |
| CsvUtils.HandleFileUploadSorted | src/lib/utils/csvUtils.ts:75 | with a total-preorder comparator, the groups come back sorted by label |
| CsvUtils.ByLabel | src/lib/utils/csvUtils.ts:75 | comparing groups by label is a total preorder when the label comparator is |
| LegacyCsvUtils.FindColumns | src/lib/utility/csvUtils.ts:20-22 | each of id, timestamp and aoi is the position of the first header cell containing its name, or -1 iff no cell contains it |
| LegacyCsvUtils.RowId | src/lib/utility/csvUtils.ts:36 | the id is never 0, and is position + 1 iff the id cell is missing, not a number, 0, or already equal to it |
| LegacyCsvUtils.ParseRow | src/lib/utility/csvUtils.ts:29-40 | fails iff the AOI cell is missing; id from the id cell with the fallback; labels from the AOI cell; no coordinates |
| LegacyCsvUtils.RowParser | src/lib/utility/csvUtils.ts:29-40 | the `map` callback fails on a line iff the line has no AOI cell, and otherwise gives a non-zero id |
| LegacyCsvUtils.MissingColumnIff | src/lib/utility/csvUtils.ts:20-26 | the columns are incomplete iff one of "id", "timestamp", "aoi" occurs in no header cell |
| LegacyCsvUtils.ParseLines | src/lib/utility/csvUtils.ts:14-48 | no lines → header failure; a missing id, timestamp or aoi column → its message; success gives the file label and one fixation per data line |
| LegacyCsvUtils.ParseCsvFile | src/lib/utility/csvUtils.ts:9-49 | the header read fails iff every line of the text is whitespace only |
| LegacyCsvUtils.ParseLinesRows | src/lib/utility/csvUtils.ts:29-40 | fixation k comes from data line k; its id is the parsed non-zero id or else k + 1; it has no x or y |
| LegacyCsvUtils.MissingAoiCellFails | src/lib/utility/csvUtils.ts:29-33 | the first data line with too few cells for the AOI column makes the file fail with its position |
| LegacyCsvUtils.ParseLinesSuccessIff | src/lib/utility/csvUtils.ts:17-33 | a file's lines parse iff there is a header, it names id, timestamp and aoi, and every data line has a cell at the AOI position |
| LegacyCsvUtils.RowsSucceedIff | src/lib/utility/csvUtils.ts:29-33 | over the data lines, every row parses iff every line has a cell at the AOI position |
| LegacyCsvUtils.RowsFailAt | src/lib/utility/csvUtils.ts:29-33 | over the data lines, the first line too short for the AOI column is the one named |
| LegacyCsvUtils.ShortRowFails | src/lib/utility/csvUtils.ts:29-33 | a data line fails iff it has no more cells than the AOI column's position |
| LegacyCsvUtils.FileParser | src/lib/utility/csvUtils.ts:60 | parsing one file never raises "No CSV files selected", and a parsed group carries the file's label |
| LegacyCsvUtils.HandleFileUpload | src/lib/utility/csvUtils.ts:51-66 | on success one group per ".csv" file; a failure is "No CSV files selected" or some ".csv" file's own failure |
| LegacyCsvUtils.NoCsvFilesIff | src/lib/utility/csvUtils.ts:53-57 | "No CSV files selected" is raised iff no file name ends with ".csv" |
| LegacyCsvUtils.GroupsInFileOrder | src/lib/utility/csvUtils.ts:60-61 | group k is the parse of the k-th ".csv" file in the given order and carries that file's label (no sorting) |

## Left out

- File and async plumbing is not modelled: `file.text()`, `FileList`/`Array.from`, async/await and `console.error`. A file is its name and its text. `Promise.all` rejection is modelled as the first failing ".csv" file in list order; which of several concurrent failures wins is not modelled.
- `console.log` in `euclideanDistance` is left out; it is output only.
- `Math.sqrt` and floating-point coordinates are not modelled. Coordinates are Dafny `real`s. A distance is kept as its square, and `sqrt(s) < t` is stated as `0 <= t && s < t * t`. Rounding is not modelled.
- `blendColors` is not part of this model. `createColorGradient` takes the blend as a function parameter. Its floating-point ratio `i * (1 / (steps - 1))` is computed exactly over reals.
- `ColorUtils.CreateColorGradient`: the `steps` argument is an integer. A fractional `steps` (which JavaScript would accept) is not modelled.
- `rgbToHex` is modelled on integer components only. `Math.round` on non-integers is not modelled, and the round trip is stated for components in 0..255.
- `parseInt` and `parseFloat` are function parameters returning `Option` (`None` for NaN). Their exact parsing rules are not modelled.
- `localeCompare` is a function parameter `leq` standing for `localeCompare(a, b) <= 0`. Only the sortedness lemmas assume it is a total preorder.
- `Array.prototype.sort` sorts in place with an engine-chosen algorithm. Here it is a pure insertion sort on a sequence. The model proves a permutation and, for a total preorder, sortedness; stability and the order among equal labels are not claimed.
- `String.prototype.toLowerCase` is modelled for ASCII letters only. Strings are sequences of `char`; UTF-16 code units and surrogate pairs are not modelled.
- The `Fixation` type in `src/lib/types/Fixation.ts` declares only `id`, `timestamp` and `aoi`. The code also reads and writes optional `x`/`y`, so the record carries them as `Option<real>`. The in-place addition of `x`/`y` to a fixation object is modelled as a record update.
- `number[][]` is modelled as `array2<int>`, a rectangular n×n array; ragged rows and row aliasing are not modelled. Reading past the end of a row, which gives `undefined` in JavaScript, reads as "not 1" in `RecurrenceMetrics.IsOne`.
- The `fill(0)` of `groupIndices` is not modelled; every index is written by the grouping pass before it is read.
- The commented-out self-transition-corrected builder in `src/lib/utils/recurrenceMatrix.ts` is dead code and is not modelled.
- The metric names declared in `src/lib/types/PlotMetric.ts` have no implementation in these files, so no run-length line scanner is modelled.
- `computeRQAMetrics` divides by `n * n` and by the 1-cell count, so zero denominators give NaN (and, were the numerator positive, Infinity). The model follows this code: the result is a `JsNumber` (`Finite`, `NaN`, `Infinity`). The model does not return 0 for empty input and does not use the n(n-1) denominator common in the RQA literature.
- `LegacyCsvUtils.HandleFileUpload`: the function's own contract states only the success length and where a failure comes from. The exact "No CSV files selected" condition is `LegacyCsvUtils.NoCsvFilesIff`, and the order of the groups is `LegacyCsvUtils.GroupsInFileOrder`.
- `Fixations.FixationLabels`: the function's own contract states membership only. Order and multiplicity are stated by `Fixations.FixationLabelsCons` and `Fixations.FixationLabelsConcat`.
- `Fixations.AllFixations`: the function's own contract states membership only. Order and multiplicity are stated by `Fixations.AllFixationsCons` and `Fixations.AllFixationsConcat`.
- `Sequences.Filter`: the function's own contract states membership and length only. Multiplicity is stated by `Sequences.FilterCount`, and order by `Sequences.FilterConcat` and `Sequences.FilterFirst`.
- `CsvText.NonBlankLinesSpec`: states membership and multiplicity. The order of the kept lines is stated by `CsvText.NonBlankLinesFirst`.
