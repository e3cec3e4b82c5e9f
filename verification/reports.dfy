/** The reports list: one card per run (newest first), an empty state, and
    the analytics card whose totals cover every run whatever its status. */
module Reports {
  import opened GstTypes
  import opened Stats

  /** A displayed percentage. The per-run rate divides without a guard, so
      a run with no records at all would show `NaN`. */
  datatype Percent = Pct(value: nat) | NaN

  /** `getStatusColor` of the reports list. */
  function StatusTone(status: ResultStatus): (t: Tone)
    ensures t == Green <==> status == Completed
    ensures t == Red <==> status == Failed
    ensures t == Yellow <==> status == Processing
  {
    match status
    case Completed => Green
    case Failed => Red
    case Processing => Yellow
  }

  /** `Math.round(matched / (matched + unmatched) * 100)` for one run. */
  function ResultMatchRate(r: ReconciliationResult): (p: Percent)
    ensures p.NaN? <==> r.matchedRecords + r.unmatchedRecords == 0
    ensures p.Pct? ==> p.value == MatchPercent(r.matchedRecords, r.unmatchedRecords)
  {
    if r.matchedRecords + r.unmatchedRecords == 0 then NaN
    else Pct(MatchPercent(r.matchedRecords, r.unmatchedRecords))
  }

  /** One report card: its badge, the counts line with the rate (completed
      runs only), the View and Download buttons (completed runs only) and the
      report-file line (only when a non-empty path is set). */
  datatype Card = Card(badge: Tone, badgeClass: string, rate: Option<Percent>, actions: bool, reportLine: Option<string>)

  function RenderCard(r: ReconciliationResult): (c: Card)
    ensures c.badge == StatusTone(r.status)
    ensures c.badgeClass == BadgeClass(c.badge)
    ensures c.rate.Some? <==> r.status == Completed
    ensures c.rate.Some? ==> c.rate.value == ResultMatchRate(r)
    ensures c.actions <==> r.status == Completed
    ensures c.reportLine.Some? <==> Truthy(r.reportPath)
    ensures c.reportLine.Some? ==> c.reportLine == r.reportPath
  {
    Card(
      badge := StatusTone(r.status),
      badgeClass := BadgeClass(StatusTone(r.status)),
      rate := if r.status == Completed then Some(ResultMatchRate(r)) else None,
      actions := r.status == Completed,
      reportLine := if Truthy(r.reportPath) then r.reportPath else None)
  }

  /** The analytics card. */
  datatype Analytics = Analytics(totalReports: nat, completed: nat, totalMatched: nat, totalUnmatched: nat)

  /** The analytics card, shown whenever there is at least one run. */
  function AnalyticsOf(results: seq<ReconciliationResult>): (a: Option<Analytics>)
    ensures a.Some? <==> |results| > 0
    ensures a.Some? ==>
      && a.value.totalReports == |results|
      && a.value.completed == |CompletedResults(results)|
      && a.value.completed <= a.value.totalReports
      && a.value.totalMatched == SumMatched(results)
      && a.value.totalUnmatched == SumUnmatched(results)
      && a.value.totalMatched >= SumMatched(CompletedResults(results))
      && a.value.totalUnmatched >= SumUnmatched(CompletedResults(results))
  {
    CompletedSumsBounded(results);
    if |results| > 0 then
      Some(Analytics(|results|, |CompletedResults(results)|, SumMatched(results), SumUnmatched(results)))
    else None
  }

  /** The whole section: the empty state and the analytics card are
      mutually exclusive, and exactly one of them is shown. */
  datatype View = View(emptyState: bool, cards: seq<Card>, analytics: Option<Analytics>)

  function Render(results: seq<ReconciliationResult>): (v: View)
    ensures v.emptyState <==> |results| == 0
    ensures v.analytics.Some? <==> |results| > 0
    ensures v.emptyState != v.analytics.Some?
    ensures |v.cards| == |results|
    ensures forall k :: 0 <= k < |results| ==> v.cards[k] == RenderCard(results[k])
    ensures v.analytics == AnalyticsOf(results)
  {
    View(
      emptyState := |results| == 0,
      cards := seq(|results|, k requires 0 <= k < |results| => RenderCard(results[k])),
      analytics := AnalyticsOf(results))
  }

  /** The analytics totals count every run; they agree with the dashboard's
      completed-only totals exactly when every run is completed. */
  lemma AnalyticsAgreeWhenAllCompleted(results: seq<ReconciliationResult>)
    requires |results| > 0
    requires forall k :: 0 <= k < |results| ==> results[k].status == Completed
    ensures AnalyticsOf(results)
      == Some(Analytics(|results|, |results|, SumMatched(CompletedResults(results)), SumUnmatched(CompletedResults(results))))
  {
    CompletedResultsAll(results);
  }

  /** A failed or in-progress run is counted in the analytics totals even
      though the dashboard leaves it out. */
  lemma AnalyticsCountUnfinishedRuns(results: seq<ReconciliationResult>, r: ReconciliationResult)
    requires r.status != Completed
    ensures AnalyticsOf([r] + results).Some?
    ensures AnalyticsOf([r] + results).value.completed == |CompletedResults(results)|
    ensures AnalyticsOf([r] + results).value.totalMatched == r.matchedRecords + SumMatched(results)
    ensures AnalyticsOf([r] + results).value.totalUnmatched == r.unmatchedRecords + SumUnmatched(results)
  {
    var rs := [r] + results;
    assert |CompletedResults(rs)| == |CompletedResults(results)| by {
      assert rs[1..] == results;
    }
    assert SumMatched(rs) == r.matchedRecords + SumMatched(results) by {
      assert rs[1..] == results;
    }
    assert SumUnmatched(rs) == r.unmatchedRecords + SumUnmatched(results) by {
      assert rs[1..] == results;
    }
    assert AnalyticsOf(rs) == Some(Analytics(|rs|, |CompletedResults(rs)|, SumMatched(rs), SumUnmatched(rs)));
  }
}
