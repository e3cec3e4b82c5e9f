/** The dashboard: counts and sums over the registry, the five-entry activity
    list with its status badges, and the summary of completed runs. */
module Dashboard {
  import opened GstTypes
  import opened Stats

  /** The summary card: totals over completed runs and the match rate. */
  datatype Summary = Summary(matched: nat, unmatched: nat, matchRate: nat)

  /** Everything the dashboard displays. */
  datatype View = View(
    totalFiles: nat,
    cleanedFiles: nat,
    totalRecords: nat,
    reconciliations: nat,
    gstr2aFiles: nat,
    gstr2aRecords: nat,
    invoiceFiles: nat,
    invoiceRecords: nat,
    recent: seq<FileData>,
    summary: Option<Summary>)

  /** The match rate with its guard: 0 when nothing matched (which also
      avoids dividing by zero), otherwise the rounded percentage. */
  function MatchRate(matched: nat, unmatched: nat): (r: nat)
    ensures r <= 100
    ensures matched == 0 ==> r == 0
    ensures matched > 0 && unmatched == 0 ==> r == 100
    ensures matched > 0 ==>
      (matched + unmatched) * (2 * r - 1) <= 200 * matched < (matched + unmatched) * (2 * r + 1)
  {
    if matched > 0 then MatchPercent(matched, unmatched) else 0
  }

  /** `files.slice(0, 5)`. */
  function RecentActivity(files: seq<FileData>): (r: seq<FileData>)
    ensures |r| <= 5 && |r| <= |files|
    ensures |files| <= 5 ==> r == files
    ensures |files| >= 5 ==> |r| == 5
    ensures forall k :: 0 <= k < |r| ==> r[k] == files[k]
  {
    if |files| <= 5 then files else files[..5]
  }

  /** Uploads are appended, so once five files exist the list no longer
      changes when more are uploaded: it shows the five oldest. */
  lemma RecentActivityIgnoresNewUploads(files: seq<FileData>, uploaded: seq<FileData>)
    requires |files| >= 5
    ensures RecentActivity(files + uploaded) == RecentActivity(files)
  {
    assert (files + uploaded)[..5] == files[..5];
  }

  /** Badge of an activity entry: green when cleaned, red on error, yellow otherwise. */
  function ActivityBadge(status: FileStatus): (t: Tone)
    ensures t == Green <==> status == Cleaned
    ensures t == Red <==> status == Error
    ensures t == Yellow <==> status == Uploaded || status == Processed
  {
    match status
    case Cleaned => Green
    case Error => Red
    case Uploaded => Yellow
    case Processed => Yellow
  }

  /** The summary card, present only when at least one run completed; its
      totals cover the completed runs only. */
  function SummaryOf(results: seq<ReconciliationResult>): (r: Option<Summary>)
    ensures r.Some? <==> exists k :: 0 <= k < |results| && results[k].status == Completed
    ensures r.Some? ==> r.value.matched == SumMatched(CompletedResults(results))
    ensures r.Some? ==> r.value.unmatched == SumUnmatched(CompletedResults(results))
    ensures r.Some? ==> r.value.matchRate == MatchRate(r.value.matched, r.value.unmatched)
    ensures r.Some? ==> r.value.matchRate <= 100
  {
    var completed := CompletedResults(results);
    AnyCompleted(results);
    if |completed| > 0 then
      var matched := SumMatched(completed);
      var unmatched := SumUnmatched(completed);
      Some(Summary(matched, unmatched, MatchRate(matched, unmatched)))
    else None
  }

  /** The dashboard of a registry and a result history. */
  function Render(files: seq<FileData>, results: seq<ReconciliationResult>): (v: View)
    ensures v.totalFiles == |files|
    ensures v.totalRecords == SumRecords(files)
    ensures v.cleanedFiles == |WithStatus(files, Cleaned)|
    ensures v.reconciliations == |CompletedResults(results)|
    ensures v.recent == RecentActivity(files)
    ensures v.summary == SummaryOf(results)
    ensures v.gstr2aFiles == |OfType(files, Gstr2a)| && v.gstr2aRecords == SumRecords(OfType(files, Gstr2a))
    ensures v.invoiceFiles == |OfType(files, Invoice)| && v.invoiceRecords == SumRecords(OfType(files, Invoice))
    ensures v.gstr2aFiles + v.invoiceFiles == v.totalFiles
    ensures v.gstr2aRecords + v.invoiceRecords == v.totalRecords
    ensures v.cleanedFiles <= v.totalFiles
    ensures v.reconciliations <= |results|
    ensures v.summary.Some? <==> v.reconciliations > 0
    ensures v.summary.Some? <==> exists k :: 0 <= k < |results| && results[k].status == Completed
    ensures |v.recent| <= 5 && |v.recent| <= |files|
    ensures forall k :: 0 <= k < |v.recent| ==> v.recent[k] == files[k]
    ensures |files| == 0 <==> |v.recent| == 0
  {
    OfTypePartition(files);
    SumRecordsByType(files);
    AnyCompleted(results);
    View(
      totalFiles := |files|,
      cleanedFiles := |WithStatus(files, Cleaned)|,
      totalRecords := SumRecords(files),
      reconciliations := |CompletedResults(results)|,
      gstr2aFiles := |OfType(files, Gstr2a)|,
      gstr2aRecords := SumRecords(OfType(files, Gstr2a)),
      invoiceFiles := |OfType(files, Invoice)|,
      invoiceRecords := SumRecords(OfType(files, Invoice)),
      recent := RecentActivity(files),
      summary := SummaryOf(results))
  }

  /** A run that is not completed adds nothing to the summary's totals. */
  lemma {:induction false} UnfinishedRunsNotSummed(results: seq<ReconciliationResult>, r: ReconciliationResult)
    requires r.status != Completed
    ensures SumMatched(CompletedResults([r] + results)) == SumMatched(CompletedResults(results))
    ensures SumUnmatched(CompletedResults([r] + results)) == SumUnmatched(CompletedResults(results))
  {
    assert ([r] + results)[1..] == results;
  }

  /** Uploading adds the new files' record counts to the total. */
  lemma UploadAddsRecords(files: seq<FileData>, uploaded: seq<FileData>, results: seq<ReconciliationResult>)
    ensures Render(files + uploaded, results).totalRecords
      == Render(files, results).totalRecords + SumRecords(uploaded)
  {
    SumRecordsAppend(files, uploaded);
  }
}
