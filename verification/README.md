# GST reconciliation tool — a Dafny model of its page state and screens

The tool is a single page. It takes GSTR-2A exports and purchase invoices as
spreadsheets, keeps a registry of the uploaded files, and lets the user do
three things: mark a file as cleaned, record a reconciliation run between
one GSTR-2A file and one invoice file, and review the runs. No spreadsheet is
ever parsed. Record counts and run outcomes are random numbers. The
"cleaning" is a change of status plus a derived file name.

The model covers these parts:

- **Intake** (`file_upload.dfy`, module `FileUpload`):
  - the MIME-type and 50 MB validation;
  - the batch loop that splits a selection into accepted records and error lines;
  - the extension-stripping regular expression `\.[^/.]+$`;
  - the `gstr` substring classification;
  - the `<clock>_<index>` ids;
  - the rule that the page is notified only when something was accepted.
- **Page state** (`session.dfy`, module `Session`): the registry, the run
  history and the processing flag, plus the four handlers (upload, clean,
  reconcile, delete), including the path where a lookup fails.
- **Screens**. Each is a pure function from page state to what it displays:
  - the dashboard (`dashboard.dfy`): counts, record sums, the five-entry
    activity list and its badges, and the completed-runs summary with its
    guarded match rate;
  - the reports list (`reports.dfy`): per-run cards with an unguarded rate,
    and analytics totals over every run;
  - the cleaning panel (`data_cleaning.dfy`): the per-type sections and each
    row's badge and buttons;
  - the reconciliation screen (`reconciliation_engine.dfy`): the pickers, the
    Start gate and the warnings.
- **Whole page** (`workflow.dfy`): the invariant every handler keeps, and
  how the screens' gating composes with the handlers.

Shared pieces:

- `types.dfy` (`GstTypes`): the records and the by-type filter.
- `stats.dfy` (`Stats`): sums, the completed-run filter, and integer
  round-half-up in place of `Math.round`.
- `text.dfy` (`Text`): decimal rendering, ASCII lower-casing and substring
  search.

Effects are made explicit. `Date.now()`, `new Date()` and each
`Math.random()` draw are inputs: `FileUpload.Tick` per accepted file, and
`Session.ReconEnv` per run. The random draws are already scaled to integers,
and their ranges are stated as preconditions. An `async` handler is modelled
as one atomic step from the state before the click to the state after its
`finally` block. Toasts are left out.

The reconciliation screen lists matching criteria (GSTIN, invoice number,
date and amount) and variance analyses, and the page promises a generated
report. No code implements any of them, so the model follows the code: a
run's counts are `500 + roll` and `10 + roll`, its variance list is empty,
and its report path is only a name.

## Model

| member | source | states |
|---|---|---|
| FileUpload.ValidateFile | src/components/gst/FileUploadSection.tsx:25-41 | A file is accepted exactly when its MIME type is one of the three spreadsheet types and its size is at most 50 MiB. A foreign type always gets the type message. An allowed type over the limit gets the size message |
| FileUpload.SizeBoundary | src/components/gst/FileUploadSection.tsx:36-38 | 52428800 bytes is still accepted; one byte more is refused with the size message |
| FileUpload.TypeCheckedFirst | src/components/gst/FileUploadSection.tsx:32-38 | A file of a wrong type gets the type message whatever its size |
| FileUpload.StripExtension | src/components/gst/FileUploadSection.tsx:54 | The display name drops the last `.ext` (a dot followed by at least one character that is neither `/` nor `.`), and the name is unchanged exactly when there is no such suffix |
| FileUpload.StripExtensionExamples | src/components/gst/FileUploadSection.tsx:54 | Only the last extension goes; a trailing dot or a name without a dot stays as is |
| FileUpload.Classify | src/components/gst/FileUploadSection.tsx:56 | A file is GSTR-2A exactly when its lower-cased name contains `gstr`, otherwise it is an invoice |
| Text.Lower | src/components/gst/FileUploadSection.tsx:56 | Lower-casing keeps the length and maps each character on its own (ASCII letters only) |
| Text.Contains | src/components/gst/FileUploadSection.tsx:56 | Substring search holds exactly when the pattern occurs at some position |
| Text.Decimal | src/components/gst/FileUploadSection.tsx:53 | The rendering of a number is a non-empty digit string with no leading zero. It has one digit exactly for numbers below ten, and starts with `0` only for zero itself |
| Text.ParseDecimalOfDecimal | src/components/gst/FileUploadSection.tsx:53 | The decimal rendering of a clock value or index reads back to the same number |
| FileUpload.FileId | src/components/gst/FileUploadSection.tsx:53 | An id splits at its first underscore into two digit strings that read back as the clock value and the index |
| FileUpload.FileIdInjective | src/components/gst/FileUploadSection.tsx:53 | Two `<clock>_<index>` ids are equal only when both the clock values and the indices are equal |
| FileUpload.NewRecord | src/components/gst/FileUploadSection.tsx:52-62 | An accepted file becomes an uploaded, uncleaned record. Its id is `<clock>_<index>` and its display name is the original name without its extension. Its type comes from the `gstr` rule. It keeps the original name and size, takes the tick's date, and has `100 + roll` records (100 to 1099) |
| FileUpload.ErrorLine | src/components/gst/FileUploadSection.tsx:65 | An error line is the file name, then `: `, then the message, so both can be read back from it |
| FileUpload.RecordIdsDiffer | src/components/gst/FileUploadSection.tsx:48-62 | Records made at two different positions of a batch never share an id, whatever the clock reads |
| FileUpload.BatchIdsDistinct | src/components/gst/FileUploadSection.tsx:48-63 | The records of one batch have pairwise distinct ids |
| FileUpload.AcceptStep | src/components/gst/FileUploadSection.tsx:49-63 | An iteration on an accepted file appends exactly its record and no error line |
| FileUpload.RefuseStep | src/components/gst/FileUploadSection.tsx:49-66 | An iteration on a refused file appends exactly its error line and no record |
| FileUpload.SplitBatch | src/components/gst/FileUploadSection.tsx:44-67 | After the loop, the records are those of the accepted positions and the error lines those of the refused positions, each in input order |
| FileUpload.PositionsSplit | src/components/gst/FileUploadSection.tsx:48-67 | Every position in the batch is either accepted or refused, never both |
| FileUpload.PositionsComplete | src/components/gst/FileUploadSection.tsx:48-67 | Every position with a given verdict appears in that verdict's list |
| FileUpload.ProcessFiles | src/components/gst/FileUploadSection.tsx:43-80 | Each input lands in exactly one output, in input order: accepted files as records, refused ones as `<name>: <error>`. Ids within a batch are distinct. The page is called exactly when something was accepted, and receives exactly the accepted records |
| Session.HandleFileUpload | src/pages/GSTReconciliation.tsx:61-67 | The new records are appended after the existing ones; the run history and the flag are untouched |
| Session.CleanedName | src/pages/GSTReconciliation.tsx:85 | The cleaned copy's name is the original name followed by `_cleaned.xlsx`, so the original can be read back from it |
| Session.CleanedNameInjective | src/pages/GSTReconciliation.tsx:85 | Different originals never share a cleaned copy name |
| Session.MarkCleaned | src/pages/GSTReconciliation.tsx:82-86 | A cleaned file keeps every field except its status (now cleaned) and its cleaned copy (`<originalName>_cleaned.xlsx`) |
| Session.CleanFiles | src/pages/GSTReconciliation.tsx:80-88 | Exactly the files with the given id are marked cleaned; every other file and the order are kept |
| Session.CleanAbsentIsNoop | src/pages/GSTReconciliation.tsx:80-88 | Cleaning an id that is not in the registry changes nothing |
| Session.CleanIdempotent | src/pages/GSTReconciliation.tsx:80-88 | Cleaning the same id twice is the same as cleaning it once |
| Session.HandleDataCleaning | src/pages/GSTReconciliation.tsx:69-104 | Cleaning changes only the registry, and processing has ended afterwards |
| Session.FindFile | src/pages/GSTReconciliation.tsx:111-112 | A lookup finds nothing exactly when no file has the id; otherwise it finds the first file with that id |
| Session.DeleteFile | src/pages/GSTReconciliation.tsx:164 | Deletion keeps exactly the files with a different id |
| Session.DeleteAbsentIsNoop | src/pages/GSTReconciliation.tsx:164 | Deleting an id that is not in the registry changes nothing |
| Session.DeleteAppend | src/pages/GSTReconciliation.tsx:164 | Deletion distributes over concatenation, so the order of the survivors is kept |
| Session.DeleteCount | src/pages/GSTReconciliation.tsx:164 | Deletion removes exactly as many files as carry the id |
| Session.HandleDeleteFile | src/pages/GSTReconciliation.tsx:163-169 | Deletion touches only the registry |
| Session.NewResult | src/pages/GSTReconciliation.tsx:124-134 | A new run is completed with no variances and names the two files. Its id is the clock reading in decimal and its timestamp is the date. Its counts are the two draws plus 500 and plus 10 (500 to 1499 and 10 to 109). Its report path is `reconciliation_report_<clock>.xlsx` |
| Session.HandleReconciliation | src/pages/GSTReconciliation.tsx:106-161 | If either id is missing, the history is unchanged. Otherwise exactly one run is put in front: the new run built from the two files found and the clock and random inputs. The registry is never touched, and processing has ended afterwards |
| Session.ReconcileMissingAddsNothing | src/pages/GSTReconciliation.tsx:111-116 | A run against an id that is not in the registry records nothing |
| GstTypes.OfType | src/components/gst/Dashboard.tsx:23-24 | The per-type list holds exactly the files of that type |
| GstTypes.OfTypePartition | src/components/gst/Dashboard.tsx:23-24 | The GSTR-2A and invoice lists together are as long as the registry |
| GstTypes.OfTypeEmpty | src/components/gst/DataCleaningPanel.tsx:57-58 | A type's list is empty exactly when no file has that type |
| GstTypes.OfTypeAppend | src/components/gst/DataCleaningPanel.tsx:57-58 | Filtering by type keeps input order: a filtered concatenation is the concatenation of the filtered parts |
| GstTypes.BadgeClassInjective | src/components/gst/DataCleaningPanel.tsx:31-39 | Different colours give different badge class strings |
| GstTypes.WithStatus | src/pages/GSTReconciliation.tsx:242 | The cleaned list holds exactly the cleaned files |
| GstTypes.WithStatusAppend | src/pages/GSTReconciliation.tsx:242 | Filtering by status keeps input order |
| Stats.SumRecords | src/components/gst/Dashboard.tsx:26 | The record total is at least each file's count, and is zero exactly when every file has zero records |
| Stats.SumRecordsAppend | src/components/gst/Dashboard.tsx:26 | The record total of two lists is the sum of their totals |
| Stats.SumRecordsByType | src/components/gst/Dashboard.tsx:101-128 | The GSTR-2A and invoice record totals add up to the overall total |
| Stats.CompletedResults | src/components/gst/Dashboard.tsx:28 | The completed list holds exactly the completed runs |
| Stats.CompletedResultsAppend | src/components/gst/Dashboard.tsx:28 | The completed filter keeps history order |
| Stats.SumMatched | src/components/gst/Dashboard.tsx:29 | The matched total is at least each run's matched count, and is zero exactly when every run matched nothing |
| Stats.SumUnmatched | src/components/gst/Dashboard.tsx:30 | The unmatched total is at least each run's unmatched count, and is zero exactly when every run left nothing unmatched |
| Stats.AnyCompleted | src/components/gst/Dashboard.tsx:180 | The completed-run list is non-empty exactly when some run is completed |
| Stats.CompletedResultsAll | src/components/gst/ReportsSection.tsx:179 | When every run is completed, the completed list is the whole history |
| Stats.CompletedSumsBounded | src/components/gst/Dashboard.tsx:28-30 | The completed-only sums never exceed the sums over all runs |
| Stats.RoundHalfUp | src/components/gst/Dashboard.tsx:206 | The result is the integer nearest to the quotient, with halves rounded up |
| Stats.MatchPercent | src/components/gst/ReportsSection.tsx:120 | The rounded match percentage is between 0 and 100. It is 100 with nothing unmatched and 0 with nothing matched, and it is the integer nearest to the exact percentage |
| Dashboard.MatchRate | src/components/gst/Dashboard.tsx:206 | The dashboard rate is 0 when nothing matched; otherwise it is the nearest-integer percentage, at most 100 |
| Dashboard.RecentActivity | src/components/gst/Dashboard.tsx:151 | The activity list is the first five files, or all of them when there are fewer |
| Dashboard.RecentActivityIgnoresNewUploads | src/components/gst/Dashboard.tsx:151 | Once five files exist, later uploads never enter the activity list |
| Dashboard.ActivityBadge | src/components/gst/Dashboard.tsx:164-168 | The badge is green exactly for cleaned files, red exactly for files in error, and yellow for the rest |
| Dashboard.SummaryOf | src/components/gst/Dashboard.tsx:180-213 | The summary is shown exactly when some run completed. Its totals are the sums over completed runs only, and its rate is the guarded, rounded rate of those totals (at most 100) |
| Dashboard.Render | src/components/gst/Dashboard.tsx:22-30 | The record total is the sum over all files. The GSTR-2A and invoice counts and record totals are those of the files of each type, and they add up to the registry's. The cleaned count is the number of cleaned files and the run count the number of completed runs. The summary appears exactly when the completed count is positive. The activity list is a prefix of at most five |
| Dashboard.UnfinishedRunsNotSummed | src/components/gst/Dashboard.tsx:28-30 | A failed or in-progress run changes neither summary total |
| Dashboard.UploadAddsRecords | src/components/gst/Dashboard.tsx:26 | Uploading raises the record total by exactly the new files' counts |
| Reports.StatusTone | src/components/gst/ReportsSection.tsx:26-33 | A run's badge is green exactly when completed, red exactly when failed, and yellow exactly when processing |
| Reports.ResultMatchRate | src/components/gst/ReportsSection.tsx:120 | A card's rate is `NaN` exactly when the run has no records. Otherwise it is the match percentage of the two counts: the integer nearest to 100·matched/(matched+unmatched), halves up |
| Reports.RenderCard | src/components/gst/ReportsSection.tsx:102-155 | The rate and the View/Download buttons appear exactly for completed runs. The report line appears exactly when the path is non-empty, and shows that path. The badge class is the status colour's class string |
| Reports.AnalyticsOf | src/components/gst/ReportsSection.tsx:163-198 | Analytics appear exactly when there is a run. They count all runs and the completed ones, which never outnumber all runs. The matched and unmatched totals are sums over every run whatever its status, so they are at least the completed-only totals |
| Reports.Render | src/components/gst/ReportsSection.tsx:57-198 | Exactly one of the empty state and the analytics card is shown, with one card per run in history order |
| Reports.AnalyticsAgreeWhenAllCompleted | src/components/gst/ReportsSection.tsx:174-191 | With every run completed, the analytics totals equal the completed-only sums and the completed count equals the run count |
| Reports.AnalyticsCountUnfinishedRuns | src/components/gst/ReportsSection.tsx:174-191 | A failed or in-progress run still adds to the analytics totals but not to the completed count |
| DataCleaning.StatusTone | src/components/gst/DataCleaningPanel.tsx:31-39 | A file's badge is yellow exactly when uploaded, green exactly when cleaned, blue exactly when processed and red exactly when in error; gray is never used |
| DataCleaning.StatusToneInjective | src/components/gst/DataCleaningPanel.tsx:31-39 | The four statuses get four different colours |
| DataCleaning.FormatZeroSize | src/components/gst/DataCleaningPanel.tsx:49-50 | A size of zero shows as `0 Bytes`; only the zero case is modelled, and other sizes give no modelled text |
| DataCleaning.RenderRow | src/components/gst/DataCleaningPanel.tsx:90-155 | Clean is rendered exactly for uploaded files and is clickable exactly when nothing is processing. Download and the cleaned-copy line appear exactly when a non-empty cleaned copy exists, and the line shows that copy's name. View and Delete are always there. The badge class is the status colour's class string |
| DataCleaning.CleanClick | src/components/gst/DataCleaningPanel.tsx:120-123 | A Clean click requests cleaning of the row's file, and only when the button is enabled |
| DataCleaning.RenderSection | src/components/gst/DataCleaningPanel.tsx:83-157 | A section shows the empty note exactly when it has no files, and otherwise one row per file in order |
| DataCleaning.RenderPanel | src/components/gst/DataCleaningPanel.tsx:57-58 | Every file appears in exactly one of the two sections. Each section's empty note shows exactly when no file has its type |
| ReconciliationEngine.CanReconcile | src/components/gst/ReconciliationEngine.tsx:33 | The gate, written with JavaScript truthiness, is open exactly when both selections are non-empty strings and nothing is processing |
| ReconciliationEngine.HandleReconcile | src/components/gst/ReconciliationEngine.tsx:33-39 | Start calls the page exactly when both selections are non-empty and nothing is processing, and passes the two selections unchanged |
| ReconciliationEngine.Render | src/components/gst/ReconciliationEngine.tsx:30-153 | The pickers list the given files of each type, in registry order. Start is disabled exactly when the gate is closed. Each warning shows exactly when its picker has no files |
| Workflow.InitialInvariant | src/pages/GSTReconciliation.tsx:54-56 | The empty page satisfies the invariant |
| Workflow.UploadThroughIntake | src/components/gst/FileUploadSection.tsx:77-79 | What intake hands to the page is a possible upload. The page keeps its invariant and its existing files, and gains files exactly when some input was accepted. The files it gains are exactly the records built from the accepted inputs, in input order, each with its own index and clock tick, after the existing files |
| Workflow.CleanKeepsFilesWellFormed | src/pages/GSTReconciliation.tsx:80-88 | Cleaning keeps every file either uploaded-and-uncleaned or cleaned with its derived copy name |
| Workflow.StepKeepsInvariant | src/pages/GSTReconciliation.tsx:61-169 | Every handler keeps the invariant: no processing between handlers, well-formed files, and only completed runs with in-range counts and a report path |
| Workflow.RunKeepsInvariant | src/pages/GSTReconciliation.tsx:61-169 | Any sequence of handler calls from a good state keeps the invariant |
| Workflow.ReachableBadges | src/pages/GSTReconciliation.tsx:80-88 | No reachable file is processed or in error. The panel shows only yellow or green badges, the dashboard never shows red, and Download is offered exactly when Clean is not |
| Workflow.ReportsAgreeWithDashboard | src/components/gst/ReportsSection.tsx:185-191 | In any reachable state, the reports' all-run totals equal the dashboard's completed-run totals, and no card shows `NaN` |
| Workflow.EngineOffersCleanedFiles | src/pages/GSTReconciliation.tsx:240-246 | The reconciliation pickers offer only cleaned files, and every cleaned file is offered in one of them |
| Workflow.StartRecordsOneRun | src/components/gst/ReconciliationEngine.tsx:35-39 | Start with two registered selections records exactly one run in front of the history, named after the selected files, and the invariant still holds |
| Workflow.StaleSelectionRecordsNothing | src/pages/GSTReconciliation.tsx:111-116 | A selection whose file was deleted leads to a run that records nothing |
| Workflow.CleanThroughPanel | src/components/gst/DataCleaningPanel.tsx:120-140 | An enabled Clean click turns the row into a cleaned row, which offers Download and no longer offers Clean |

## Left out

- Rendering, icons (`getStatusIcon`), tabs, drag-and-drop events, the hidden file input, the unused upload queue and all toasts are left out. They are presentation; the notified text is not modelled, including the comma-joined upload error message.
- The progress timers and `processingProgress` are left out. Each `async` handler is modelled as one atomic step, so the interleavings of a second click while a handler awaits are not modelled.
- The `catch` branch of the cleaning handler is left out, because nothing in its `try` block can throw in the model. The reconciliation handler's `catch` is modelled as the missing-file path.
- `Date.now()`, `new Date()` and `Math.random()` are inputs, not effects. Dates are milliseconds as natural numbers. `toLocaleString` and `toLocaleDateString` formatting is not modelled.
- DataCleaning.FormatZeroSize: only the zero case of `formatFileSize` is modelled; the other sizes are formatted with floating-point logarithms.
- Stats.RoundHalfUp: `Math.round` of a floating-point quotient is modelled as exact rational rounding (halves up). Floating-point error at an exact `.5` boundary is not modelled.
- Text.Lower: `toLowerCase` is modelled for ASCII letters only.
- The `data` and `errors` fields of a file record are left out; nothing ever reads them.
- The `default` arms of the colour switches are left out, because every declared status has its own arm.
- The disabled "none" entries of the two pickers, and the static text describing matching criteria, are left out.
- `src/pages/Index.tsx` (a landing page) is not part of this model.
