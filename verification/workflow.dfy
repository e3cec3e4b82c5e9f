/** The page as a whole: the session invariant every handler keeps, and how
    the screens' gating composes with the handlers. */
module Workflow {
  import opened GstTypes
  import opened Stats
  import Session
  import Dashboard
  import Reports
  import DataCleaning
  import ReconciliationEngine
  import FileUpload

  /** A file as intake and cleaning leave it: uploaded and not yet cleaned,
      or cleaned with the "_cleaned.xlsx" copy named after it. */
  predicate WellFormedFile(f: FileData) {
    && 100 <= f.recordCount <= 1099
    && ((f.status == Uploaded && f.cleanedVersion == None)
        || (f.status == Cleaned && f.cleanedVersion == Some(Session.CleanedName(f.originalName))))
  }

  /** A result as a successful run records it. */
  predicate WellFormedResult(r: ReconciliationResult) {
    && r.status == Completed
    && r.variances == []
    && 500 <= r.matchedRecords <= 1499
    && 10 <= r.unmatchedRecords <= 109
    && Truthy(r.reportPath)
  }

  /** What holds between handlers. */
  predicate Invariant(s: Session.State) {
    && !s.isProcessing
    && (forall k :: 0 <= k < |s.files| ==> WellFormedFile(s.files[k]))
    && (forall k :: 0 <= k < |s.results| ==> WellFormedResult(s.results[k]))
  }

  /** One user-triggered handler call. `Upload` carries the records the
      intake delivered. */
  datatype Action =
    | Upload(batch: seq<FileData>)
    | Clean(fileId: string)
    | Reconcile(gstr2aFileId: string, invoiceFileId: string, env: Session.ReconEnv)
    | Delete(fileId: string)

  /** The inputs an action can really carry: intake records are fresh
      uploads, and the random draws lie in their ranges. */
  predicate Possible(a: Action) {
    match a
    case Upload(batch) => forall k :: 0 <= k < |batch| ==>
      batch[k].status == Uploaded && batch[k].cleanedVersion == None && 100 <= batch[k].recordCount <= 1099
    case Reconcile(_, _, env) => Session.ValidEnv(env)
    case _ => true
  }

  function Step(s: Session.State, a: Action): Session.State
    requires Possible(a)
  {
    match a
    case Upload(batch) => Session.HandleFileUpload(s, batch)
    case Clean(id) => Session.HandleDataCleaning(s, id)
    case Reconcile(g, i, env) => Session.HandleReconciliation(s, g, i, env)
    case Delete(id) => Session.HandleDeleteFile(s, id)
  }

  lemma InitialInvariant()
    ensures Invariant(Session.Initial)
  {
  }

  /** Cleaning keeps every file well formed: an uploaded file becomes
      cleaned with its copy's name, and a cleaned one stays as it was. */
  lemma CleanKeepsFilesWellFormed(files: seq<FileData>, fileId: string)
    requires forall k :: 0 <= k < |files| ==> WellFormedFile(files[k])
    ensures forall k :: 0 <= k < |files| ==> WellFormedFile(Session.CleanFiles(files, fileId)[k])
  {
  }

  /** Every handler keeps the invariant. */
  lemma StepKeepsInvariant(s: Session.State, a: Action)
    requires Invariant(s) && Possible(a)
    ensures Invariant(Step(s, a))
  {
    match a
    case Upload(batch) =>
      var t := Step(s, a);
      forall k | 0 <= k < |t.files|
        ensures WellFormedFile(t.files[k])
      {
        if k >= |s.files| {
          assert t.files[k] == batch[k - |s.files|];
        }
      }
    case Clean(id) =>
      CleanKeepsFilesWellFormed(s.files, id);
    case Reconcile(g, i, env) =>
    case Delete(id) =>
      var t := Step(s, a);
      forall k | 0 <= k < |t.files|
        ensures WellFormedFile(t.files[k])
      {
        assert t.files[k] in s.files;
      }
  }

  /** A sequence of handler calls, applied in order. */
  function Run(s: Session.State, actions: seq<Action>): Session.State
    requires forall k :: 0 <= k < |actions| ==> Possible(actions[k])
    decreases |actions|
  {
    if |actions| == 0 then s else Run(Step(s, actions[0]), actions[1..])
  }

  /** Every state the page can reach keeps the invariant. */
  lemma {:induction false} RunKeepsInvariant(s: Session.State, actions: seq<Action>)
    requires Invariant(s)
    requires forall k :: 0 <= k < |actions| ==> Possible(actions[k])
    ensures Invariant(Run(s, actions))
    decreases |actions|
  {
    if |actions| > 0 {
      StepKeepsInvariant(s, actions[0]);
      RunKeepsInvariant(Step(s, actions[0]), actions[1..]);
    }
  }

  /** Intake feeding the page: whatever `processFiles` hands to
      `onFileUpload` is a possible upload, so the page stays in a good state.
      Existing files keep their places, and a batch in which nothing is
      accepted leaves the page as it was. */
  method UploadThroughIntake(s: Session.State, files: seq<FileUpload.UploadFile>, ticks: seq<FileUpload.Tick>)
    returns (t: Session.State)
    requires Invariant(s)
    requires |ticks| == |files|
    requires forall i :: 0 <= i < |ticks| ==> ticks[i].roll < 1000
    ensures Invariant(t)
    ensures t.results == s.results
    ensures |s.files| <= |t.files| && t.files[..|s.files|] == s.files
    ensures |t.files| > |s.files| <==> exists i :: 0 <= i < |files| && FileUpload.ValidateFile(files[i]).Valid?
    ensures var ps := FileUpload.Positions(files, |files|, true);
      && |t.files| == |s.files| + |ps|
      && forall a :: 0 <= a < |ps| ==> t.files[|s.files| + a] == FileUpload.NewRecord(files[ps[a]], ps[a], ticks[ps[a]])
  {
    var validFiles, errors, call := FileUpload.ProcessFiles(files, ticks);
    if call.Some? {
      assert Possible(Upload(call.value));
      StepKeepsInvariant(s, Upload(call.value));
      t := Step(s, Upload(call.value));
      assert t.files[..|s.files|] == s.files;
    } else {
      t := s;
    }
  }

  // ---------------------------------------------------------------------------
  // Consequences for the screens

  /** No handler ever sets `processed` or `error`, so the panel's blue and
      red badges and the dashboard's red badge never appear, and a file
      offers Download exactly when it no longer offers Clean. */
  lemma ReachableBadges(s: Session.State, isProcessing: bool)
    requires Invariant(s)
    ensures forall k :: 0 <= k < |s.files| ==>
      DataCleaning.StatusTone(s.files[k].status) in {Yellow, Green}
    ensures forall k :: 0 <= k < |s.files| ==>
      Dashboard.ActivityBadge(s.files[k].status) != Red
    ensures forall k :: 0 <= k < |s.files| ==>
      var row := DataCleaning.RenderRow(s.files[k], isProcessing);
      row.download <==> row.clean == DataCleaning.Hidden
  {
  }

  /** Every run in the history is completed, so the reports list's totals
      (over all runs) equal the dashboard's (over completed runs), and no
      card shows `NaN`. */
  lemma ReportsAgreeWithDashboard(s: Session.State)
    requires Invariant(s)
    requires |s.results| > 0
    ensures Reports.AnalyticsOf(s.results).Some? && Dashboard.SummaryOf(s.results).Some?
    ensures Reports.AnalyticsOf(s.results).value.totalMatched == Dashboard.SummaryOf(s.results).value.matched
    ensures Reports.AnalyticsOf(s.results).value.totalUnmatched == Dashboard.SummaryOf(s.results).value.unmatched
    ensures forall k :: 0 <= k < |s.results| ==>
      Reports.RenderCard(s.results[k]).rate.Some? && Reports.RenderCard(s.results[k]).rate.value.Pct?
  {
    assert s.results[0].status == Completed;
    CompletedResultsAll(s.results);
  }

  /** The reconciliation screen is given the cleaned files: both pickers
      offer cleaned files only, and every cleaned file in one of them. */
  lemma EngineOffersCleanedFiles(s: Session.State, selectedGstr2a: string, selectedInvoice: string)
    ensures var v := ReconciliationEngine.Render(WithStatus(s.files, Cleaned), selectedGstr2a, selectedInvoice, s.isProcessing);
      && (forall f :: f in v.gstr2aOptions ==> f in s.files && f.status == Cleaned)
      && (forall f :: f in v.invoiceOptions ==> f in s.files && f.status == Cleaned)
      && (forall f :: f in s.files && f.status == Cleaned ==> f in v.gstr2aOptions || f in v.invoiceOptions)
  {
  }

  /** Pressing Start with two selections whose ids the registry carries
      records exactly one completed run, named after the selected files. */
  lemma StartRecordsOneRun(s: Session.State, selectedGstr2a: string, selectedInvoice: string, env: Session.ReconEnv)
    requires Invariant(s) && Session.ValidEnv(env)
    requires |selectedGstr2a| > 0 && |selectedInvoice| > 0
    requires exists k :: 0 <= k < |s.files| && s.files[k].id == selectedGstr2a
    requires exists k :: 0 <= k < |s.files| && s.files[k].id == selectedInvoice
    ensures ReconciliationEngine.HandleReconcile(selectedGstr2a, selectedInvoice, s.isProcessing)
      == Some((selectedGstr2a, selectedInvoice))
    ensures var t := Step(s, Reconcile(selectedGstr2a, selectedInvoice, env));
      && Invariant(t)
      && |t.results| == |s.results| + 1
      && t.results[1..] == s.results
      && t.results[0].gstr2aFile == Session.FindFile(s.files, selectedGstr2a).value.name
      && t.results[0].invoiceFile == Session.FindFile(s.files, selectedInvoice).value.name
  {
    StepKeepsInvariant(s, Reconcile(selectedGstr2a, selectedInvoice, env));
  }

  /** A selection made before its file was deleted leads to a failed run that
      records nothing. */
  lemma StaleSelectionRecordsNothing(s: Session.State, selectedGstr2a: string, selectedInvoice: string, env: Session.ReconEnv)
    requires Session.ValidEnv(env)
    ensures var t := Step(Session.HandleDeleteFile(s, selectedGstr2a), Reconcile(selectedGstr2a, selectedInvoice, env));
      t.results == s.results && !t.isProcessing
  {
  }

  /** Clicking an enabled Clean button turns that file's row into a cleaned
      row: the Clean button goes and the Download button appears. The
      registry keeps its length. */
  lemma CleanThroughPanel(s: Session.State, k: nat)
    requires Invariant(s)
    requires k < |s.files|
    requires DataCleaning.RenderRow(s.files[k], s.isProcessing).clean == DataCleaning.Enabled
    ensures var request := DataCleaning.CleanClick(DataCleaning.RenderRow(s.files[k], s.isProcessing));
      && request == Some(s.files[k].id)
      && var t := Step(s, Clean(request.value));
      && |t.files| == |s.files|
      && t.files[k].status == Cleaned
      && DataCleaning.RenderRow(t.files[k], t.isProcessing).clean == DataCleaning.Hidden
      && DataCleaning.RenderRow(t.files[k], t.isProcessing).download
  {
  }
}
