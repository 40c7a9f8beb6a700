# PHAST temperature analyser: a Dafny model of its core

The analyser reads a folder of dispersion-report workbooks and finds curves
of downwind distance against centre-line temperature. Each curve belongs to
one equipment item, scenario and weather case. For every curve it computes
the downwind distance at which a target temperature is reached. This project
models the four parts of the analyser that hold its logic and proves
properties of each.

- **Types** (`types.dfy`) holds the two label-valued enumerations
  (interpolation method, temperature type) and the six-field result record
  `AnalysisResult`. Parsing a combo-box label back into its enumeration
  variant is proved to be the inverse of labelling.
- **PyText** (`pytext.dfy`) holds the Python string operations the parser
  relies on. These are `str.strip`, `str.startswith`, `split(":", 1)[1]`
  and `float()` on decimal text, each proved against its specification.
  `strip()` and `float()` ignore different whitespace: `float()` does not
  ignore the separators U+001C to U+001F, which `str.isspace()` accepts.
  Both are one trim over a whitespace set. For `float()` on ASCII-digit
  text, the value of every accepted text is proved: an optional sign, then
  digits with at most one decimal point, read as a decimal fraction, with
  only the whitespace `float()` ignores around it.
- **ExcelProcessor** (`excel_processor.dfy`) is the sheet parser and file
  processor. A worksheet is a grid of cells (`Empty`, `Num`, `Text`).
  `AnalyzeSheet` makes the row-major pass over the grid. It keeps the most
  recent equipment, scenario and weather labels. At each block title it
  calls `ExtractDispersionData`, which reads the header row two rows below
  the title and the data rows from three rows below. `ProcessSingleFile`
  runs the pass over every sheet of a workbook. `ProcessFiles` concatenates
  the records of every workbook and skips a workbook that fails. Each of
  these is an imperative method, as in the source. Each is proved equal to
  a specification function, and the parser's properties are lemmas about
  those functions.
- **Folds** (`folds.dfy`) holds the three ways the file processor combines
  per-item results: over the cells of a row, the sheets of a workbook and
  the files of a folder. Their algebra is proved once for any step
  function.
- **Interpolation** (`interpolation.dfy`) is the interpolation engine. It
  applies a length guard, then sorts the samples jointly by temperature,
  hottest first. A target above the hottest sample gives no result. A
  target below the coldest sample gives the coldest sample's distance.
  Otherwise it dispatches to linear interpolation (`np.interp` on the
  reversed arrays), nearest neighbour (first arg-min), or a cubic or
  quadratic spline. A spline falls back to linear interpolation when there
  are too few samples. The spline fit itself is a parameter, `Fitter`.
- **Worker** (`worker.dfy`) is the analysis run. The source emits Qt
  signals. Here `Run` returns those signals as a trace, in the order they
  are emitted: status messages, one progress percentage per record, the
  completed result list, and the error message.

`wrappers.dfy` holds the `Option` and `Result` datatypes.

Behaviour worth noting, modelled as the code does it:

- A record's two sample lists can differ in length. The code appends the
  distance before converting the temperature
  (`src/core/excel_processor.py:105-106`). A row whose temperature text does
  not parse therefore leaves one more distance than temperatures.
  `ExcelProcessor.BlockAlignment` states exactly when the lengths agree.
- The continuation flag is compared with `!= 1`
  (`src/core/excel_processor.py:97`), so a flag of `1.0` also continues the
  block.
- A failure inside a block's handler only drops that block. But a scenario
  marker without a colon makes `split(":", 1)[1]` raise inside
  `_analyze_sheet`, outside every block handler. That error ends the whole
  workbook, which then contributes no records
  (`ExcelProcessor.StepCellEffect`,
  `ExcelProcessor.FailedFileContributesNothing`). The equipment and weather
  markers always contain a colon, so they cannot raise.
- A temperature cell whose text is padded with one of the separators
  U+001C to U+001F fails `float()` (`src/core/excel_processor.py:106`),
  although `strip()` would remove that padding. The row then keeps its
  distance alone (`PyText.SeparatorPaddingRejected`).
- The files are concatenated in the order they are enumerated, and the
  model keeps that order.
- An unknown interpolation-method label makes every record raise inside the
  per-record handler (`src/core/worker.py:49`). The run then emits no
  progress and completes with an empty result list
  (`Worker.InvalidMethodNoResults`). It does not report an error.

## Model

| member | source | states |
|---|---|---|
| Types.MethodLabel | src/core/types.py:5-9 | parsing the label of any interpolation method gives back that method |
| Types.ParseMethod | src/core/types.py:5-9 | a label names a method exactly when it is one of the four method labels |
| Types.MethodLabels | src/core/types.py:5-9 | there are exactly four method labels, pairwise distinct |
| Types.TemperatureLabel | src/core/types.py:12-14 | parsing the label of either temperature type gives back that type |
| Types.ParseTemperatureType | src/core/types.py:12-14 | a label names a temperature type exactly when it is "Vapour" or "Liquid" |
| Types.TemperatureLabels | src/core/types.py:12-14 | there are exactly two temperature-type labels, and they differ |
| Types.ParseMethodInverse | src/core/types.py:5-9 | a label that parses is the label of the method it parses to, so no two methods share a label |
| Types.ParseTemperatureTypeInverse | src/core/types.py:12-14 | a label that parses is the label of the temperature type it parses to |
| Types.ComboBoxRoundTrip | src/core/types.py:5-14 | every label offered for either enumeration parses, and labelling the result gives the same label back |
| PyText.TrimLeftSpec | src/core/excel_processor.py:56 | trimming the left end removes only characters of the whitespace set, keeps a suffix of the text, and leaves none of them in front |
| PyText.TrimRightSpec | src/core/excel_processor.py:56 | trimming the right end removes only characters of the whitespace set, keeps a prefix of the text, and leaves none of them at the back |
| PyText.TrimSpec | src/core/excel_processor.py:56 | trimming returns a contiguous slice of the text, only whitespace-set characters are removed on either side, and neither end of the result is one |
| PyText.TrimSplit | src/core/excel_processor.py:56 | the text is its trimmed part with the removed whitespace-set characters before and after it |
| PyText.StripSpec | src/core/excel_processor.py:56 | `strip()` returns a contiguous slice of the text, only whitespace is removed on either side, and neither end of the result is whitespace |
| PyText.TrimIdempotent | src/core/excel_processor.py:56-63 | stripping a stripped value changes nothing |
| PyText.TrimPadded | src/core/excel_processor.py:56 | a word with no whitespace at its ends, padded with whitespace on both sides, trims back to the word |
| PyText.StartsWithSpec | src/core/excel_processor.py:58-62 | the marker test holds exactly when the marker is a prefix of the text |
| PyText.FirstIndexOfSpec | src/core/excel_processor.py:59-63 | the position found holds the character and no earlier position does; there is none exactly when the character is absent |
| PyText.AfterFirstColonSpec | src/core/excel_processor.py:59-63 | `split(":", 1)[1]` exists exactly when the text has a colon, and it is everything after the first colon |
| PyText.AfterFirstColonKeepsLaterColons | src/core/excel_processor.py:59-63 | for text `head:tail` where `head` has no colon, the part after the colon is all of `tail`, later colons included |
| PyText.LeadingDigits | src/core/excel_processor.py:104-106 | the count is a prefix made only of digits, followed by a non-digit or the end of the text |
| PyText.ParseUnsigned | src/core/excel_processor.py:104-106 | an unsigned decimal parses to a non-negative value; its exact value is stated by `ParseUnsignedDecimal` and `ParseUnsignedShape` |
| PyText.ParseUnsignedDecimal | src/core/excel_processor.py:104-106 | digits, a point and digits (either run may be empty, not both) parse to the whole part plus the fraction part divided by ten to the number of fraction digits |
| PyText.ParseUnsignedShape | src/core/excel_processor.py:104-106 | every unsigned text that parses is digits, optionally followed by a point and more digits, with at least one digit, and its value is that decimal fraction |
| PyText.ParseNumber | src/core/excel_processor.py:104-106 | a value is returned only for text with something besides the whitespace `float()` ignores, and a negative value only when that text starts with `-` |
| PyText.ParseSignedOfWord | src/core/excel_processor.py:104-106 | an optional `+` or `-` before an unsigned number that parses gives its value, negated for `-` |
| PyText.ParseSignedWord | src/core/excel_processor.py:104-106 | the same, with any whitespace `float()` ignores around the signed number (not U+001C to U+001F) |
| PyText.ParseNumberOfDigits | src/core/excel_processor.py:104-106 | `float()` of a digit string with an optional sign, surrounded by whitespace `float()` ignores, is the digits' integer value with that sign applied |
| PyText.ParseNumberOfDecimal | src/core/excel_processor.py:104-106 | `float()` of ignored whitespace, an optional sign, digits, a point and digits, then ignored whitespace, is the signed decimal fraction those digits spell |
| PyText.ParseSignedShape | src/core/excel_processor.py:104-106 | every stripped text that parses is an optional sign followed by an unsigned decimal, and its value is that decimal with the sign applied |
| PyText.ParseNumberShape | src/core/excel_processor.py:104-106 | conversely, every text that converts is whitespace `float()` ignores, an optional sign, digits with at most one point and at least one digit, then ignored whitespace; its value is that signed decimal fraction |
| PyText.SeparatorPaddingRejected | src/core/excel_processor.py:106 | a U+001C separator is stripped by `strip()` but makes `float()` fail, while a no-break space before a digit is ignored |
| ExcelProcessor.ToFloat | src/core/excel_processor.py:103-106 | a numeric cell converts to its own value, and an empty cell does not convert |
| ExcelProcessor.IndexOf | src/core/excel_processor.py:84-89 | a column found holds exactly the header text, unstripped |
| ExcelProcessor.IndexOfSpec | src/core/excel_processor.py:84-89 | the column found is the first one holding the header; none is found exactly when no cell of the row holds it |
| ExcelProcessor.BlockEnd | src/core/excel_processor.py:94-98 | the block ends at the first row from the start that is below the sheet or whose flag is not 1 |
| ExcelProcessor.BlockEndContinues | src/core/excel_processor.py:94-98 | every row before the end of the block has flag 1 |
| ExcelProcessor.ReadRow | src/core/excel_processor.py:100-108 | a row is skipped exactly when either cell is empty or the distance does not convert; otherwise it gives the converted distance, and it also gives the temperature exactly when that converts |
| ExcelProcessor.Collect | src/core/excel_processor.py:94-108 | for any row outcomes, the distances outnumber the temperatures by the number of rows with a distance alone, and there is at most one distance per row |
| ExcelProcessor.CollectRows | src/core/excel_processor.py:94-108 | the distances outnumber the temperatures by exactly the number of rows whose temperature failed to convert, and there is at most one distance per row; which rows give which values is stated by `DistanceRows` and `TemperatureRows` |
| ExcelProcessor.DistancesPicked | src/core/excel_processor.py:100-106 | the distances of a run of rows are the values the rows give for them, top to bottom, with skipped rows giving none |
| ExcelProcessor.TemperaturesPicked | src/core/excel_processor.py:100-108 | the temperatures of a run of rows are the values the rows give for them, top to bottom, with only rows whose both values converted giving one |
| Folds.PickedSources | src/core/excel_processor.py:100-108 | each picked value comes from a distinct position in range, in increasing order, and a position contributes exactly when it gives a value |
| ExcelProcessor.DistanceRows | src/core/excel_processor.py:100-106 | the k-th distance is the converted distance of the k-th row that is not skipped: the source rows are in range, strictly increasing, and are exactly the rows not skipped |
| ExcelProcessor.TemperatureRows | src/core/excel_processor.py:100-108 | the k-th temperature is the converted temperature of the k-th row whose both values converted: the source rows are in range, strictly increasing, and are exactly those rows |
| ExcelProcessor.CollectRowsHasPair | src/core/excel_processor.py:100-108 | a run of rows gives some temperature exactly when one of its rows had both values convert |
| ExcelProcessor.ExtractBlock | src/core/excel_processor.py:77-117 | a block is returned only with both lists non-empty and at most as many temperatures as distances; a missing distance or temperature header gives none |
| ExcelProcessor.ExtractBlockSome | src/core/excel_processor.py:77-113 | a block is returned exactly when both headers are present and some data row of the block had both values convert; it then holds the values collected from the rows of the block |
| ExcelProcessor.AppendRow | src/core/excel_processor.py:100-108 | one data row extends the lists as the row's outcome says: nothing, a distance alone, or a distance and a temperature |
| ExcelProcessor.ExtractDispersionData | src/core/excel_processor.py:77-117 | the row loop with its break and skip rules returns exactly the block specified by `ExtractBlock` |
| ExcelProcessor.TemperatureFailuresZero | src/core/excel_processor.py:103-108 | no temperature conversion fails in a range of rows exactly when the failure count over it is zero |
| ExcelProcessor.FailuresZero | src/core/excel_processor.py:103-108 | for any row outcomes, the count of rows with a distance alone is zero exactly when no row has a distance alone |
| ExcelProcessor.BlockAlignment | src/core/excel_processor.py:103-113 | an extracted block has equally many distances and temperatures exactly when no consumed row had a distance that converted and a temperature that did not |
| ExcelProcessor.MarkerColons | src/core/excel_processor.py:58-63 | an equipment or weather marker always has a part after its first colon; that part is missing exactly when the text has no colon |
| ExcelProcessor.MarkersExclusive | src/core/excel_processor.py:58-64 | no text starts with two different markers or is both a marker and the block title, so the order of the tests decides nothing |
| ExcelProcessor.StepCell | src/core/excel_processor.py:56-73 | the only error one cell raises is the missing colon, reported at that cell's row |
| ExcelProcessor.StepCellEffect | src/core/excel_processor.py:56-73 | one cell fails the sheet exactly when it is a scenario marker without a colon. Otherwise it changes at most one part of the scan state: a marker sets only its own label, to the stripped text after the first colon; the title appends the block's record; any other cell changes nothing |
| ExcelProcessor.StepCellOutcome | src/core/excel_processor.py:56-73 | a failing cell reports its row, and a successful cell either keeps the records or appends the block's record to them |
| ExcelProcessor.EmittedWellFormed | src/core/excel_processor.py:65-73 | a title emits at most one record, and that record has three non-empty labels and non-empty sample lists |
| ExcelProcessor.EmittedExactly | src/core/excel_processor.py:65-73 | a record is emitted exactly when the block was extracted and all three current labels are non-empty; it carries those labels and the block's samples |
| ExcelProcessor.StepCellGrows | src/core/excel_processor.py:56-73 | a cell only appends to the sheet's records, and every record kept is well formed |
| ExcelProcessor.ScanRowGrows | src/core/excel_processor.py:55-73 | a row's cells only append to the sheet's records, keeping them well formed |
| ExcelProcessor.ScanRowsWellFormed | src/core/excel_processor.py:49-75 | every record the scan of the first rows emits has three non-empty labels and non-empty samples |
| ExcelProcessor.ScanRowSnoc | src/core/excel_processor.py:55-73 | scanning one more cell of a row applies that cell's step to the state after the cells before it |
| ExcelProcessor.ScanRowUnfold | src/core/excel_processor.py:55-73 | once the cells before it succeeded, the next cell acts on the state they produced |
| ExcelProcessor.ScanRowKeepsError | src/core/excel_processor.py:55-63 | once a cell of a row has raised, the cells after it do not change the outcome |
| ExcelProcessor.ScanRowsKeepsError | src/core/excel_processor.py:54-63 | once a row has raised, the rows after it do not change the outcome |
| ExcelProcessor.ScanCell | src/core/excel_processor.py:56-73 | the marker and title dispatch for one cell computes exactly the cell step the lemmas above describe |
| ExcelProcessor.ScanRowCells | src/core/excel_processor.py:55-73 | the loop over a row's cells, stopping at the first error, gives exactly the scan of the whole row |
| ExcelProcessor.AnalyzeSheet | src/core/excel_processor.py:47-75 | the nested row and cell loops, with labels unset at the start of the sheet, return exactly the sheet's records or its error |
| ExcelProcessor.FileRecords | src/core/excel_processor.py:31-45 | a workbook that cannot be loaded fails with a load error |
| ExcelProcessor.ProcessSingleFile | src/core/excel_processor.py:31-45 | the loop over sheets returns the sheets' records concatenated in order, or the first sheet's error |
| ExcelProcessor.SheetsIndependent | src/core/excel_processor.py:39-42 | the outcome for two runs of sheets is the first error among them, otherwise the two runs' records concatenated; no sheet's records depend on another sheet |
| ExcelProcessor.SheetsRecordsWellFormed | src/core/excel_processor.py:39-42 | every record from a workbook's sheets is well formed |
| ExcelProcessor.ProcessFiles | src/core/excel_processor.py:17-29 | the loop over files returns the concatenation, in file order, of the records of every file that did not fail |
| ExcelProcessor.AllRecordsAppend | src/core/excel_processor.py:22-29 | the records of two runs of files are the first run's records followed by the second run's |
| ExcelProcessor.FailedFileContributesNothing | src/core/excel_processor.py:22-29 | a failing file contributes nothing, wherever it sits, and the files before and after it still contribute all their records |
| ExcelProcessor.AllRecordsWellFormed | src/core/excel_processor.py:17-29 | every record handed to the analysis has three non-empty labels and non-empty sample lists |
| Interpolation.InsertByTemperaturePermutes | src/core/interpolation.py:36 | inserting an index into the order adds exactly that index and loses none |
| Interpolation.InsertByTemperatureSorts | src/core/interpolation.py:36 | inserting an index into an order ascending by temperature keeps it ascending |
| Interpolation.ArgsortPrefixSpec | src/core/interpolation.py:36 | the sort order of the first `n` samples is a permutation of their indices, ascending by temperature |
| Interpolation.ReversedArgsortDescends | src/core/interpolation.py:36-37 | reversing an ascending order gives temperatures that never increase |
| Interpolation.ReverseMultiset | src/core/interpolation.py:36 | reversing the order keeps the same indices |
| Interpolation.DescendingOrderSpec | src/core/interpolation.py:36-38 | the descending order is a permutation of all sample indices, and the temperatures gathered by it never increase |
| Interpolation.PositionOf | src/core/interpolation.py:36-38 | every original sample appears in the sorted order, so each pair of temperature and distance is kept together |
| Interpolation.SortedExtremes | src/core/interpolation.py:41 | the first sorted temperature is the largest sample and the last is the smallest |
| Interpolation.Segment | src/core/interpolation.py:69 | the segment found brackets the target, lower end inclusive |
| Interpolation.NpInterp | src/core/interpolation.py:69 | at the right end the result is the last value; anywhere else it lies between the values at the two ends of the segment holding the target |
| Interpolation.LinePoint | src/core/interpolation.py:69 | a point on the line between two sample values, inside the run, lies between those values |
| Interpolation.LinearInterpolation | src/core/interpolation.py:68-69 | on samples sorted hottest first, the result lies between the distances of two neighbouring samples whose temperatures bracket the target |
| Interpolation.HandleExtrapolation | src/core/interpolation.py:95-100 | on samples sorted hottest first, there is no result exactly when the target is above every sample temperature; otherwise the result is the distance of the last sample, whose temperature is the coldest |
| Interpolation.NearestIndex | src/core/interpolation.py:90-92 | the index chosen minimises the distance to the target, and every earlier index is strictly farther |
| Interpolation.NearestInterpolation | src/core/interpolation.py:90-92 | the result is the distance of a sample whose temperature is at least as close to the target as every other sample's |
| Interpolation.Interpolate | src/core/interpolation.py:31-33 | fewer than two temperatures or fewer than two distances give no result |
| Interpolation.IndexingFailsIff | src/core/interpolation.py:36-38 | indexing the distances by the sort order fails exactly when there are fewer distances than temperatures |
| Interpolation.ShortDistancesGiveNone | src/core/interpolation.py:36-38 | fewer distances than temperatures give no result for every method: the indexing error is caught |
| Interpolation.InterpolateUnfold | src/core/interpolation.py:36-61 | with at least two temperatures and enough distances, the result is the range test and dispatch applied to the jointly sorted samples |
| Interpolation.InterpolateSorted | src/core/interpolation.py:41-61 | above the hottest sample there is no result; below the coldest the result is the last distance; in range, linear and a spline with too few samples give the linear result, and nearest neighbour gives one of the distances |
| Interpolation.AboveRangeGivesNone | src/core/interpolation.py:41-44 | a target above every temperature gives no result, for every method |
| Interpolation.BelowRangeGivesColdest | src/core/interpolation.py:41-44 | a target below every temperature gives the distance of a sample with the smallest temperature, for every method |
| Interpolation.SplineFallback | src/core/interpolation.py:72-83 | cubic with fewer than four samples and quadratic with fewer than three give exactly the linear result |
| Interpolation.NpInterpBracketed | src/core/interpolation.py:69 | the linear result lies between the values at the ends of a segment that brackets the target |
| Interpolation.NpInterpAtSample | src/core/interpolation.py:69 | at a sample point the linear result is the value of a sample at that point |
| Interpolation.ReverseNonIncreasing | src/core/interpolation.py:69 | reversing temperatures that never increase gives temperatures that never decrease, as `np.interp` requires |
| Interpolation.LinearSortedBracketed | src/core/interpolation.py:68-69 | on sorted samples the linear result lies between the distances of two neighbouring samples that bracket the target |
| Interpolation.LinearBetweenBracketing | src/core/interpolation.py:68-69 | for an in-range target, linear interpolation gives a result between the distances of two samples whose temperatures bracket the target with no sample temperature strictly between them |
| Interpolation.NeighboursInOrder | src/core/interpolation.py:36-38 | no sample temperature lies strictly between two neighbours of the descending order |
| Interpolation.LinearAtSample | src/core/interpolation.py:68-69 | with distinct temperatures, linear interpolation at a sample's own temperature returns that sample's distance |
| Interpolation.LinearSortedMidpoint | src/core/interpolation.py:68-69 | on two sorted samples, the midpoint temperature lies in range and gives the midpoint distance |
| Interpolation.TwoSampleOrder | src/core/interpolation.py:36 | two distinct temperatures are sorted hottest first |
| Interpolation.LinearMidpoint | src/core/interpolation.py:41-69 | with two samples of distinct temperature, the midpoint temperature gives the midpoint distance |
| Interpolation.NearestIsSampleDistance | src/core/interpolation.py:90-92 | any nearest-neighbour result is one of the input distances |
| Interpolation.NearestAtSample | src/core/interpolation.py:90-92 | with distinct temperatures, nearest neighbour at a sample's own temperature returns that sample's distance |
| Worker.RecordResult | src/core/worker.py:45-61 | a record yields a result exactly when its interpolation returns a distance, and the result carries the record's labels, that distance, the method label and the target |
| Worker.ResultsPicked | src/core/worker.py:43-61 | with a method label that parses, the results are the values the records yield, in record order, with records that yield none skipped |
| Worker.ResultsInRecordOrder | src/core/worker.py:43-61 | the results correspond, in strictly increasing record order, to exactly those records that yield a result, so there are at most as many results as records |
| Worker.InvalidMethodNoResults | src/core/worker.py:43-68 | an unknown method label gives no results and no progress signals, because every record raises and is skipped |
| Worker.ProgressBounds | src/core/worker.py:63 | every progress value lies between 0 and 100 |
| Worker.Progress | src/core/worker.py:63 | the value is the floor of (i+1)·100/total: times total it does not exceed (i+1)·100, and one more would |
| Worker.ProgressMonotone | src/core/worker.py:63 | progress never decreases from one record to the next |
| Worker.ProgressFinal | src/core/worker.py:63 | progress after the last record is 100 |
| Worker.ProgressSignalsSpec | src/core/worker.py:41-64 | one progress signal per record, in order, the k-th carrying the floor of (k+1)·100/total |
| Worker.CompletionsAppend | src/core/worker.py:70 | completions in two joined traces add up |
| Worker.ProgressSignalsNoCompletion | src/core/worker.py:43-68 | the record loop emits no completion |
| Worker.AnalyzeRecords | src/core/worker.py:40-68 | the record loop returns exactly the specified results and progress signals |
| Worker.AnalyzeAndReport | src/core/worker.py:35-70 | after reading the records, the run emits the no-data error or the interpolation status, the progress signals and the completion |
| Worker.AnalysisOutcome | src/core/worker.py:35-70 | no records give only the error "No valid data found in Excel files"; otherwise completion is emitted exactly once, last, with the full result list |
| Worker.RunTraceOfOutcome | src/core/worker.py:35-70 | once the records are read, a run with some records ends with its only completion, carrying all results; a run with none ends with an error and emits no completion |
| Worker.Run | src/core/worker.py:23-73 | the run emits exactly the specified trace of status, error, progress and completion signals |
| Worker.RunOutcome | src/core/worker.py:23-73 | a run starts with the initialising status; when the temperature type parses and records exist, it ends with the only completion, carrying all results; otherwise it ends with an error and emits no completion |

## Left out

- The Qt window, the worker thread and its signal wiring, and every logging call are not modelled. Signals become a returned trace.
- File-system and workbook input/output are not modelled: finding `*.xlsx` files in the folder, `openpyxl.load_workbook` and `wb.close`. The files are a parameter of `Worker.Run` and `ExcelProcessor.ProcessFiles`. A file either cannot be loaded or is a sequence of sheet grids.
- The `verbose` option is left out, because it only controls logging.
- The scipy `interp1d` cubic and quadratic fits and their NaN test are a parameter, `Fitter`. Only the fallback to linear interpolation is modelled.
- Interpolation.Interpolate: temperatures and distances are exact reals, so IEEE rounding in `np.interp` and NaN or infinite samples are not modelled.
- Interpolation.DescendingOrder: `np.argsort` is modelled as a stable insertion sort, then reversed. The numpy sort is not stable, so for equal temperatures the model fixes one of the orders numpy may produce. The properties that depend on ties assume distinct temperatures.
- Worker.Progress: the source computes `int((i + 1) / total * 100)` in floating point, which can fall one below the exact floor (29 of 100 gives 28). The model uses the exact integer floor.
- ExcelProcessor.ToFloat: `float()` on text is modelled for decimal text with an optional sign and surrounding whitespace. Exponents, `inf`, `nan` and digit separators are not modelled and do not convert.
- PyText.ParseNumber: only the ASCII digits 0 to 9 are digits here. `float()` also converts other Unicode decimal digits, such as full-width `１２`, which give no value in the model. Python's table of those digits is not modelled.
- ExcelProcessor.Cell: boolean and date cells are not modelled. A boolean `True` flag would also continue a block in the source.
- ExcelProcessor.MarkerText: numeric cells read as empty text, since no rendering of a number starts with a marker or equals the title.
- Worker.InvalidTemperatureTypeMessage: the model keeps the shape of Python's `ValueError` text for an unknown temperature type but not its exact `repr` quoting of unusual strings.
- ExcelProcessor.CellAt: a cell beyond a stored row reads as empty, since a worksheet pads every row to its full width. So the `IndexError` handler at `src/core/excel_processor.py:115-117` cannot be reached and is not modelled.
- Other failures that reach the outer handler at `src/core/worker.py:72-73` are not modelled. These are failures of the Qt and file-system layers.
