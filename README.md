# helixhouse pipeline demo: a verified model of `script.js`

helixhouse is a browser demo of an eDNA analysis pipeline. The user uploads
files and a train of seven cars shows the steps advancing. When the run
finishes, the page writes a synthetic report as quoted CSV and previews it.
The page can also write a filtered abundance table. This project models the
parts of `script.js` that compute or keep state, and proves what they
promise:

- **Quoted CSV** (`csv.dfy`, module `Csv`). The writer wraps every cell in
  quotes and doubles the quotes inside it. It joins cells with `,` and rows
  with a line feed. The preview splits the text into lines, drops blank
  lines, parses each line in one pass (`parseLine`) and slices off the
  header.
- **The report** (`report.dfy`, `numerals.dfy`, `random.dfy`,
  `fixtures.dfy`). `makeCSV` and `randSeq` are loops. Every `Math.random()`
  call is a draw passed in as a parameter. `String(n)` and `padStart` are
  modelled on digit strings.
- **The abundance filter** (`abundance.dfy`). The query is trimmed and
  lower-cased. The fixed abundance table is filtered by substring, and the
  kept rows are written as CSV.
- **The progress of a step** (`progress.dfy`). `animateToStep` clamps the
  step index, marks the cars, and waits in a loop until the step's duration
  has passed. Time spent paused does not count, and a cancel is seen even
  while paused. The clock and the flags the loop polls come in as a sequence
  of observations, one per pass of the loop, with the clock in integer
  milliseconds.
- **The train layout** (`train.dfy`). This is the arithmetic of
  `positionTrain`.
- **The run** (`pipeline.dfy`). A `Controller` class holds `simState`,
  `analysisCompleted` and `uploadedFiles`. Its methods are the start guards,
  the pause, cancel and reset handlers, completion, the `catch` branch and
  the file-list updates. The `for` loop of `runPipeline` walks the seven
  steps.

Two behaviours of the code are worth knowing before the table:

- **CSV round trip.** A cell written by the page does not always read back
  as itself. The parser returns an empty cell, or a cell made only of
  quotes, with one quote more (see Findings).
- **Flags after a run.** A completed run only clears `running` and sets
  `analysisCompleted` (`script.js:411-412`). `paused` and `cancelled` keep
  their values.

## Model

| member | source | states |
|---|---|---|
| Numerals.Decimal | script.js:105 | `String(n)` is at least one digit, with no leading zero unless it is `0` |
| Numerals.DecimalValue | script.js:105 | the digits of `String(n)` denote `n` |
| Numerals.PadStart | script.js:105 | `padStart` returns `width` characters (or the text itself if longer): the fill, then the text |
| Numerals.PaddedDecimal | script.js:105 | `String(n).padStart(5,'0')` for `n < 10^5` is exactly five digits that still denote `n` |
| Random.Index | script.js:77 | `Math.floor(u * n)` is an index below `n` |
| Random.RandInt | script.js:78 | `randInt(min, max)` lies in the closed range |
| Random.RandChoice | script.js:77 | `randChoice` returns an element of the array |
| Random.Nucleotides | script.js:80 | the base string has one base per draw, each one of A, T, C, G |
| Random.RandSeq | script.js:80 | the loop of `randSeq(len)` builds the base string of the first `len` draws |
| Csv.Escape | script.js:133 | doubling the quotes never shortens a cell, and gives the empty text only for the empty cell |
| Csv.QuoteCell | script.js:133 | a written cell opens and closes with a quote around at least the cell's own length |
| Csv.Join | script.js:133 | `join` of no parts is empty; otherwise the text starts with the first part |
| Csv.EncodeRow | script.js:133 | the empty row writes nothing; otherwise the line starts with the first quoted cell |
| Csv.EncodeTable | script.js:133 | no rows write nothing; otherwise the text starts with the first row's line |
| Csv.SplitOn | script.js:484 | `split` always returns at least one piece |
| Csv.NonBlank | script.js:484 | `filter(Boolean)` keeps exactly the non-empty lines, each as many times as it occurs, and drops every empty one |
| Csv.NonBlankAppend | script.js:484 | `filter(Boolean)` keeps the lines in order: filtering two runs of lines one after the other is filtering each run |
| Csv.Scan | script.js:486-496 | the scan keeps the fields it has finished, in front, and adds at least one |
| Csv.Fields | script.js:486-496 | a line parses to at least one field |
| Csv.ParseLine | script.js:486-496 | the character loop of `parseLine` returns the fields the scan specification gives |
| Csv.FieldCount | script.js:486-496 | the scan keeps the finished fields and adds one field per comma outside quotes, plus one |
| Csv.LineFieldCount | script.js:486-496 | a line parses to 1 + (commas outside quotes) fields, so never to none |
| Csv.QuotePairs | script.js:490 | a run of 2k quotes reads as k literal quotes and is consumed whole, in either quote state |
| Csv.QuotedCell | script.js:133 | a written cell, read from outside quotes, adds its read-back to the current field and ends outside quotes |
| Csv.RowScan | script.js:486-496 | a written row scans to the finished fields followed by its cells, each read back |
| Csv.ParseEncodedRow | script.js:486-496 | a parsed written row gives each cell back, except that a cell of k quotes (the empty cell included) comes back as k+1 quotes |
| Csv.RoundTrip | script.js:486-496 | when no cell consists only of quotes, parsing a written row gives the row back |
| Csv.EncodedRowIsLine | script.js:133 | a row of cells without line feeds is written as one non-empty line that starts with a quote |
| Csv.SplitJoin | script.js:484 | splitting lines joined by a separator that none of them contains gives the lines back |
| Csv.NonBlankKeepsFullLines | script.js:484 | `filter(Boolean)` keeps a list of non-empty lines as it is |
| Csv.TableLines | script.js:133 | the written table splits into one line per row, in order, header first, with no blank line |
| Csv.ParsedLines | script.js:497 | one parsed row per non-blank line |
| Csv.PreviewOf | script.js:484-499 | with no non-blank line there is no preview; otherwise the header is the parse of the first non-blank line, the total counts the other non-blank lines, and the shown rows are the parses of the next `min(maxRows, total)` of them, in order |
| Csv.ParsedTable | script.js:497 | each line of a written table parses to its row, each cell read back |
| Csv.PreviewOfTable | script.js:497-499 | the preview of a written table shows its header and first `maxRows` data rows, each cell read back, and counts all data rows |
| Csv.RfcRoundTrip | script.js:486-496 | with the corrected reading (a quote pair counts only inside quotes), every written row parses back to itself |
| Csv.EmptyCellReadsAsQuote | script.js:490 | as written, the empty cell is read back as `"`; the corrected reading gives the empty cell |
| Report.SeqIdIsSeqId | script.js:105 | a `seq_id` is `COI_` or `18S_` followed by exactly five digits, with a value in [1000, 99999] |
| Report.SeqId | script.js:105 | the `seq_id` cell is well formed |
| Report.Count | script.js:111 | a `randInt` cell is the decimal text of a count in its range |
| Report.Label | script.js:118 | a prediction cell is `LABEL_` followed by a count in [0, 40] |
| Report.BaseCell | script.js:106 | a base-string cell has one base per draw, each one of A, T, C, G |
| Report.Cells | script.js:127-131 | a record is written as 20 cells in the header's column order |
| Report.Row | script.js:105-131 | one iteration's record: a well-formed `seq_id`; the two base strings as given; marker, species, source, sample and level from their fixtures; a read count in [1, 300]; the printed score as confidence when its draw exceeds 0.3, else the level; location equal to the sample; depth empty exactly when its draw is at most 0.2, else in [10, 6000]; three `LABEL_` predictions |
| Report.Record | script.js:104-131 | the record's sequence and k-mer have one base per draw; with draws of the sizes `makeCSV` uses, every field but the depth is filled |
| Report.RecordSchema | script.js:104-131 | each record keeps the schema: a well-formed `seq_id`; an 80-base sequence and a 60-base k-mer sequence; marker, species, source, sample and level taken from their fixtures; a read count in [1, 300]; the confidence is the printed score when the draw exceeds 0.3 and the level otherwise; location equals `Sample_ID`; depth is empty exactly when its draw is at most 0.2, and otherwise in [10, 6000]; three `LABEL_` predictions |
| Report.MapSeq | script.js:133 | mapping keeps the length and maps each element |
| Report.Table | script.js:91-133 | the table has the header row first and one row per draw after it |
| Report.MakeCsv | script.js:90-133 | the loop of `makeCSV(rowsCount)` writes the header followed by one record per draw |
| Report.TableIsWritable | script.js:133 | every report row is non-empty and no cell contains a line feed |
| Report.ReportLines | script.js:133 | the report has `rowsCount + 1` lines: line 0 writes the header and line `r` writes record `r-1` |
| Report.PlainReadsBack | script.js:486-496 | a cell without quotes reads back as itself; the empty cell reads back as `"` |
| Report.Displayed | script.js:497-499 | a record as the preview shows it has 20 cells |
| Report.FilledReadsBack | script.js:486-496 | a record with every field but the depth filled reads back as its cells, except that an empty depth shows as `"` |
| Report.ReadsBackExcept | script.js:486-496 | a row of quote-free cells, all non-empty except the one at `k`, reads back as itself, except that an empty cell at `k` becomes `"` |
| Report.TableRow | script.js:133 | row `i + 1` of the report table holds record `i` |
| Report.PreviewedRecord | script.js:497-499 | the preview shows record `i` as its displayed cells |
| Report.ReportPreview | script.js:414-415 | the preview of the final report shows exactly the header, counts every record, and shows the first `maxRows` records, with an empty depth shown as `"` |
| JsString.Contains | script.js:715 | `includes` finds the empty text everywhere, and never a text longer than the string searched |
| JsString.ReplaceAbsent | script.js:464 | `replace` with a pattern that does not occur returns the text as it is |
| JsString.ReplaceAt | script.js:464 | `replace` swaps exactly the first occurrence of the pattern and keeps the rest |
| JsString.ReplaceFirstMeans | script.js:464-466 | `replace` with a string pattern leaves a text without the pattern unchanged, and otherwise replaces exactly its first occurrence |
| Abundance.TrimStart | script.js:714 | the result is a suffix of the input; what was dropped is white space; the result does not start with white space |
| Abundance.TrimEnd | script.js:714 | the result is a prefix of the input; what was dropped is white space; the result does not end with white space |
| Abundance.Trim | script.js:714 | `trim` never lengthens, and its result neither starts nor ends with white space |
| Abundance.TrimSlice | script.js:714 | `trim` keeps the slice after the leading white space, and everything it drops is white space |
| Abundance.BlankTrims | script.js:714 | input made only of white space trims to the empty string |
| Abundance.Lower | script.js:714 | ASCII `toLowerCase` of a character: capital letters move down by 32, everything else is kept |
| Abundance.ToLower | script.js:714 | lower-casing keeps the length and lowers each character |
| Abundance.Query | script.js:714 | the query is no longer than the input, holds no capital letter, and neither starts nor ends with white space |
| Abundance.LowerTrimmed | script.js:714 | lower-casing a trimmed text leaves it trimmed, with no capital letter |
| Abundance.Filter | script.js:715 | an entry is kept if and only if it is in the table and its lower-cased taxonomy contains the query; each kept entry is kept as many times as it occurs, the others not at all; kept rows are a subsequence of the table, in the same order |
| Abundance.Filtered | script.js:714-715 | the handler keeps exactly the entries of the abundance table whose lower-cased taxonomy contains the query, in table order |
| Abundance.EmptyQueryKeepsAll | script.js:715 | the empty query keeps every row, in order |
| Abundance.BlankInputKeepsAll | script.js:714-715 | a blank filter box keeps the whole abundance table |
| Abundance.LowerKeepsSpace | script.js:714 | lower-casing neither makes nor removes white space |
| Abundance.TrimStartLower | script.js:714 | removing leading white space commutes with lower-casing |
| Abundance.TrimEndLower | script.js:714 | removing trailing white space commutes with lower-casing |
| Abundance.QueryIgnoresCase | script.js:714 | lower-casing what the user typed does not change the query |
| Abundance.CaseInsensitive | script.js:714-715 | a query keeps the same rows as its lower-cased form |
| Abundance.EntryCells | script.js:716 | a kept row is written as two cells: its taxonomy, then digits that denote its read count |
| Abundance.PlainTableReadsBack | script.js:717 | a table of non-empty, quote-free cells splits into one line per row, and each line parses back to its row |
| Abundance.CsvTableRow | script.js:716 | row `k + 1` of the written table is the k-th kept entry's taxonomy and read count |
| Abundance.CsvTablePlain | script.js:716 | the written table is the header followed by one row per kept entry, every cell non-empty and free of quotes and line feeds |
| Abundance.CsvLines | script.js:716-717 | the filtered CSV has one line per kept row plus the header; line 0 parses to `Taxonomy,Read_Count` and line `k+1` parses to the k-th kept row's taxonomy and read count |
| Abundance.FilteredCsv | script.js:713-717 | the downloaded text has one line per kept row plus one, and its first line parses to `Taxonomy,Read_Count` |
| Progress.StepDuration | script.js:376 | a step waits its own duration, or 1000 ms when the duration is zero; never zero |
| Progress.ClampStep | script.js:306 | the clamped index lies in [0, count-1]: the index itself when it is in range, 0 below the range, count-1 above it |
| Progress.MarkCars | script.js:310-318 | exactly the cars before the step are completed, and only the step's car is active |
| Progress.Elapsed | script.js:341-342 | with a clock that never goes back, the elapsed time lies between 0 and the wall-clock time since the start |
| Progress.ElapsedExcludesPauses | script.js:333-342 | elapsed time is wall-clock time minus paused time, and lies between 0 and the wall-clock time |
| Progress.ElapsedWithoutPauses | script.js:341-342 | with no pause, elapsed time is wall-clock time |
| Progress.PauseFreezesElapsed | script.js:333-340 | the elapsed time when the run resumes equals the elapsed time when it paused |
| Progress.ElapsedMonotone | script.js:341-342 | elapsed time never goes back |
| Progress.WaitOutcome | script.js:331-347 | a wait never reports skipped; it ends cancelled only at a pass that saw the flag, and done only at a pass that saw the run neither cancelled nor paused with the duration elapsed |
| Progress.WaitOutcomeMeans | script.js:331-347 | the wait ends at the first pass that does not continue: cancelled when the flag is set, even if the run is paused; done when the run is not paused and elapsed time has reached the duration |
| Progress.WaitOutcomeHistory | script.js:331-347 | a wait that ended at pass `m` continued at every earlier pass, and it ended cancelled exactly when pass `m` saw the cancel flag |
| Progress.JsRound | script.js:344 | `Math.round(x)` is the integer `n` with `n - 0.5 <= x < n + 0.5` |
| Progress.RoundOfInt | script.js:344 | `Math.round` of a whole number is that number |
| Progress.Fraction | script.js:343 | the step fraction lies in [0, 1] and is 1 once the duration has elapsed |
| Progress.FractionMonotone | script.js:343 | the step fraction never goes back |
| Progress.FrameAt | script.js:343-346 | a frame belongs to its step, and shows the step at 100% once the duration has elapsed |
| Progress.IntText | script.js:346 | a printed number holds no dash, so the title's separator is the text's first |
| Progress.FrameBounds | script.js:343-346 | a frame of step `s` shows a global percent between the step's start and the next step's start, and a step percent in [0, 100] |
| Progress.FrameMonotone | script.js:343-346 | neither percent goes back as elapsed time grows |
| Progress.RunBounds | script.js:344 | the first step starts at 0% and the seventh ends at 100% |
| Progress.ShownFramesRise | script.js:331-348 | the frames the loop draws never go back, stay within the step, and start no lower than the frame of the first pass that draws |
| Progress.ShownFramesDone | script.js:331-347 | a wait that ends done draws at least one frame, and the last shows the step complete |
| Progress.WaitForStep | script.js:328-349 | the wait loop ends as the wait specification says, and draws exactly the frames that specification gives for each pass's elapsed time |
| Progress.AnimateToStep | script.js:302-349 | with no cars it returns at once; otherwise it clamps the index, marks the cars, and waits as `WaitForStep` does, its frames rising within the step and the last one showing the step complete when done |
| Train.Width | script.js:278 | a container that reports a width keeps it; one that reports none counts as 900 pixels |
| Train.Slots | script.js:280 | the width is shared by at least 5 slots, and by at least count+1 |
| Train.Spacing | script.js:280 | the spacing is always between 100 and 160 pixels |
| Train.SpacingFits | script.js:280 | when the container has room for 100 pixels per slot, the slots fit in it |
| Train.Place | script.js:282-298 | a car's z-index lies in [10, 50]; it is drawn at 1.12 scale and reads `Processing...` exactly when it is the active car |
| Train.PlaceActive | script.js:282-298 | the active car, and only it, is at translate 0 with z-index 50, scale 1.12 and status `Processing...`; every other car has z-index in [10, 40], scale 0.92, and `Complete` or `Pending` by its class |
| Train.PlaceSpaced | script.js:283-284 | neighbouring cars are exactly `spacing` apart, in pipeline order |
| Train.NearerIsHigher | script.js:287 | a car nearer the active one is drawn at or above a car farther away |
| Pipeline.SpliceStart | script.js:226 | `splice` starts at the index itself when it is in range; a negative index counts back from the end and stops at 0; an index past the end starts at the end |
| Pipeline.SplicedRemovesOne | script.js:226 | `Spliced`, the list `splice(idx, 1)` leaves: exactly one file is removed, the one at the start position, when the list is non-empty and `idx` is below its length; the other files keep their order; otherwise the list is unchanged |
| Pipeline.MarkAfterTitle | script.js:464 | Pause turns the separator after a dash-free title into ` (PAUSED) — ` and keeps the rest |
| Pipeline.UnmarkAfterTitle | script.js:466 | Resume turns ` (PAUSED) — ` after a dash-free title back into the separator and keeps the rest |
| Pipeline.PauseResumeText | script.js:463-467 | a step's progress text, paused, carries the marker between the title and the percent, and resuming gives the text back |
| Pipeline.FailureText | script.js:418-423 | the `catch` branch writes `Cancelled` exactly for the cancel error, and never `Waiting to start...` |
| Pipeline.ClearCars | script.js:439-440 | every car loses its `active` and `completed` classes |
| Pipeline.Controller.constructor | script.js:430-456 | on load every flag is false, no file is selected, the bar is at 0% and the text reads `Waiting to start...` |
| Pipeline.Controller.Start | script.js:354-367 | a run starts if and only if none is running, none has completed and a file is selected; then it is running, neither paused nor cancelled, the bar is at 0% and the text reads `Starting analysis...`; otherwise nothing changes |
| Pipeline.Controller.TogglePause | script.js:459-468 | while running, Pause toggles `paused` and marks or unmarks the progress text with the first-occurrence `replace`, changing nothing else; otherwise it does nothing |
| Pipeline.Controller.Cancel | script.js:470-473 | while running, Cancel raises `cancelled` and changes nothing else; otherwise it does nothing |
| Pipeline.Controller.Complete | script.js:406-412 | completion leaves the pipeline not running and completed, the bar at 100% and the text `Analysis complete — results ready.` |
| Pipeline.Controller.Reset | script.js:433-440 | `resetPipelineUI` sets the bar to 0% and the text to `Waiting to start...`, clears the three run flags and every car's classes, and keeps `analysisCompleted` and the files |
| Pipeline.Controller.Abort | script.js:417-426 | the `catch` branch, as written, ends with the bar at 0%, the text `Waiting to start...`, the run flags and cars cleared, and `analysisCompleted` unchanged |
| Pipeline.Controller.AbortShowingReason | script.js:417-426 | the corrected `catch` branch resets the same way but leaves the failure's text on screen |
| Pipeline.Controller.SelectFiles | script.js:233 | a new selection replaces the file list and leaves the run flags, bar and text alone |
| Pipeline.Controller.ClearFiles | script.js:237 | Clear empties the file list and leaves the run flags, bar and text alone |
| Pipeline.Controller.RemoveFile | script.js:226 | a Remove button splices the file list and leaves the run flags, bar and text alone |
| Pipeline.Controller.StartClick | script.js:726-738 | the Start button goes ahead if and only if no analysis has completed and a file is selected; it then resets the pipeline; otherwise nothing changes |
| Pipeline.Controller.AutoStart | script.js:155-163 | the analysis page's own start selects the demo file when none is selected, resets the pipeline and starts a run unless the analysis has completed, whether or not a run was already going |
| Pipeline.Controller.AutoStartGuarded | script.js:155-163 | the corrected start leaves a run that is going alone, and otherwise starts as `AutoStart` does |
| Pipeline.StartClickStartsTwice | script.js:736-738 | as written, one click on Start with a file selected starts a run, and the page's own start then starts a second one while the first is running |
| Pipeline.StartClickStartsOnce | script.js:736-738 | with the guarded start, one click starts one run |
| Pipeline.CancelShowsWaiting | script.js:418-420 | as written, a cancelled run shows `Waiting to start...`, not `Cancelled` |
| Pipeline.CancelShowsReason | script.js:418-420 | with the text written after the reset, a cancelled run shows `Cancelled` |
| Pipeline.Controller.Run | script.js:353-427 | a refused run changes nothing; otherwise its outcome is the one the steps' traces give; a finished run is completed with the bar at 100% and every car completed; a cancelled run ends with the bar at 0%, `Waiting to start...` and no car marked; a run still waiting shows the bar and text of the last frame drawn; the bar of the frames drawn during the steps never goes back |
| Pipeline.FinishesIff | script.js:373-377 | `RunOutcomeOf`, the outcome of the step loop: the run finishes exactly when no step sees the cancel flag on entry and every step's wait runs to its duration |
| Pipeline.StepEndFrame | script.js:343-346 | the last frame of a step shows it at 100% and the bar where the next step starts |
| Pipeline.AppendStep | script.js:373-377 | a step's frames follow the frames of the earlier steps without going back, and the bar stays at or below the next step's start |
| Pipeline.UpToBounded | script.js:344 | frames of the steps drawn so far lie in [0, 100] and belong to one of the seven steps |
| Pipeline.CompleteStep | script.js:379-398 | at the end of step `i` its car turns from active to completed, and the next car, if any, becomes active |
| Pipeline.RunSteps | script.js:373-404 | the step loop ends as the run specification says; the bar stays in [0, 100] and never goes back; after the last step the bar is at 100% and every car is completed and none is active |

## Left out

- The DOM is left out: markup, styles, icons, status text nodes, `renderFileList`, `setupTabs` and `buildVisualPipeline`. Cars are modelled only by their `active` and `completed` classes.
- Button labels and enabling (`btnPause`, `btnCancel`, `btnToResults`, `startAnalysisBtn`) are left out. They change no state the handlers read: each handler tests the run flags itself.
- `navigate` is modelled only through its timed start on the analysis page (`Controller.AutoStart`). Its page switching, scrolling and the `statSamples` counter are left out.
- `resetPipelineUI` is modelled on the bar, the text, the flags and the car classes. Its `Pending` status texts, icons, the removal of the CSV preview and its `positionTrain(0, 0)` call are left out.
- Plotly charts, the results widgets and the UMAP jitter timer are left out. They are foreign library calls and floating-point display effects.
- `downloadCSV` is left out, because it is browser file I/O. The model ends at the CSV text.
- `Math.random()` is replaced by draws in [0, 1) passed as parameters.
- Real time is replaced by injected observations: `performance.now()`, `setTimeout`, `requestAnimationFrame` and the `async` scheduling.
- Pipeline.Controller.StartClick: the two timers it sets off are modelled as an order of calls: `Start` for `runPipeline` at 300 ms, then `AutoStart` for the `navigate` timer at 500 ms. Interleavings with the wait loop are not modelled.
- Progress.WaitForStep: it reads the clock once per pass of the loop. The source may read `performance.now()` up to three times within one synchronous pass.
- Progress.WaitForStep: it assumes the clock is positive and never goes back. This is what keeps `pauseStart`, tested for truthiness, from reading 0 as no pause.
- Progress.FrameAt: clock readings are whole milliseconds, and the fraction and the percentages are computed in exact reals. IEEE double rounding is not modelled, so at a .5 tie the page may round one way and the model the other (step 0 of 1200 ms at 294 ms elapsed: 3.5 exactly in the model, 3.4999999999999996 in doubles). The bounds, the monotonicity and the 100% at a step's end are proved over exact reals only.
- `randFloat`'s `toFixed` text is taken as given strings. Floating-point formatting is not modelled.
- Pipeline.Controller.Run: the handlers and the wait loop are not linked. The flags the wait loop reads reach it through the observations, not from the `Controller` fields.
- Pipeline.Controller.Run: it requires exactly the seven cars `buildVisualPipeline` builds, one per step. Other train lengths are not modelled.
- Pipeline.Controller.Run: the pauses of 400, 350 and 100 ms between steps are left out. The car repositioning between steps is left out too, except for the class changes.
- Only the cancel error is produced inside the run. Other exceptions (`OtherError`) reach `Controller.Abort` only when it is called directly.
- Abundance.Lower: `toLowerCase` is modelled on ASCII letters only. Unicode case mapping is not modelled.
- The `|| ''` fallback for a missing input value is left out. The query input is always a string here.
- Only `.trim()` white space from the ECMAScript list is recognised, as listed in `Abundance.IsSpace`.
- The `DUMMY` fixtures are used only where the filter and `makeCSV` read them: the abundance table and the species list.
- `renderCSVPreviewFromString` is left out beyond what it computes: the parsed header, the `maxRows` slice and the total count (`script.js:559`). Its table markup is not modelled.
- Pipeline.SpliceStart: `Number()` of the button's index attribute is taken as an integer. `NaN` is not modelled.
- Csv.Join, Csv.EncodeRow and Csv.EncodeTable: their own contracts state only how the text starts. The full line structure is stated by `Csv.SplitJoin` and `Csv.TableLines`.
- Report.Table: its own contract states the header and the row count. The cells of each row are stated by `Report.TableRow`.

## Findings

| source | as written | input that shows it | evidently intended | confidence | as-written member | corrected member |
|---|---|---|---|---|---|---|
| script.js:490 | `parseLine` reads `""` as a literal quote before it checks whether it is inside quotes, so the encoded empty cell `""` parses to `"` (a cell of k quotes parses to k+1 quotes) | the report writes `''` for a missing depth (`script.js:115`), which shows in the preview's `Depth_m` column as `"` | an empty cell previews as empty: a quote pair counts as a literal quote only inside quotes (section 2 of RFC 4180) | high, not executed | Csv.EmptyCellReadsAsQuote | Csv.RfcRoundTrip |
| script.js:418-420 | the `catch` branch writes `Cancelled`, then calls `resetPipelineUI`, which at once writes `Waiting to start...` over it | press Cancel during a run | the failure's text stays on screen after the reset | medium, not executed | Pipeline.CancelShowsWaiting | Pipeline.Controller.AbortShowingReason |
| script.js:736-738 | the Start button calls `navigate('analysis-page')`, whose 500 ms timer (`script.js:156-163`) resets the pipeline and calls `runPipeline`, and it also schedules `runPipeline` itself at 300 ms; the reset clears `running`, so the second call starts a second run while the first one's loop still goes on | click Start with one file selected | a single run: the timed start leaves a run that is already going alone | high, not executed | Pipeline.StartClickStartsTwice | Pipeline.Controller.AutoStartGuarded |
