/** The sums and the percentage that the dashboard and the reports list
    derive from the registry and the result history. */
module Stats {
  import opened GstTypes

  /** `files.reduce((sum, f) => sum + f.recordCount, 0)`. */
  function SumRecords(files: seq<FileData>): (r: nat)
    ensures forall k :: 0 <= k < |files| ==> files[k].recordCount <= r
    ensures r == 0 <==> forall k :: 0 <= k < |files| ==> files[k].recordCount == 0
  {
    if |files| == 0 then 0 else files[0].recordCount + SumRecords(files[1..])
  }

  lemma {:induction false} SumRecordsAppend(a: seq<FileData>, b: seq<FileData>)
    ensures SumRecords(a + b) == SumRecords(a) + SumRecords(b)
  {
    if |a| == 0 {
      assert a + b == b;
    } else {
      assert (a + b)[1..] == a[1..] + b;
      SumRecordsAppend(a[1..], b);
    }
  }

  /** The GSTR-2A and invoice record counts add up to the total. */
  lemma {:induction false} SumRecordsByType(files: seq<FileData>)
    ensures SumRecords(OfType(files, Gstr2a)) + SumRecords(OfType(files, Invoice)) == SumRecords(files)
  {
    if |files| > 0 {
      SumRecordsByType(files[1..]);
      assert OfType(files, Gstr2a) == (if files[0].fileType == Gstr2a then [files[0]] else []) + OfType(files[1..], Gstr2a);
      assert OfType(files, Invoice) == (if files[0].fileType == Invoice then [files[0]] else []) + OfType(files[1..], Invoice);
      SumRecordsAppend(if files[0].fileType == Gstr2a then [files[0]] else [], OfType(files[1..], Gstr2a));
      SumRecordsAppend(if files[0].fileType == Invoice then [files[0]] else [], OfType(files[1..], Invoice));
    }
  }

  /** `results.filter(r => r.status === 'completed')`. */
  function CompletedResults(results: seq<ReconciliationResult>): (r: seq<ReconciliationResult>)
    ensures |r| <= |results|
    ensures forall k :: 0 <= k < |r| ==> r[k].status == Completed
    ensures forall x :: x in r <==> x in results && x.status == Completed
  {
    if |results| == 0 then []
    else if results[0].status == Completed then [results[0]] + CompletedResults(results[1..])
    else CompletedResults(results[1..])
  }

  /** The completed filter keeps history order. */
  lemma {:induction false} CompletedResultsAppend(a: seq<ReconciliationResult>, b: seq<ReconciliationResult>)
    ensures CompletedResults(a + b) == CompletedResults(a) + CompletedResults(b)
  {
    if |a| == 0 {
      assert a + b == b;
    } else {
      assert (a + b)[1..] == a[1..] + b;
      CompletedResultsAppend(a[1..], b);
    }
  }

  /** The filter is non-empty exactly when some result is completed. */
  lemma AnyCompleted(results: seq<ReconciliationResult>)
    ensures |CompletedResults(results)| > 0 <==> exists k :: 0 <= k < |results| && results[k].status == Completed
  {
    var c := CompletedResults(results);
    if |c| > 0 {
      assert c[0] in results;
    }
    if exists k :: 0 <= k < |results| && results[k].status == Completed {
      var k :| 0 <= k < |results| && results[k].status == Completed;
      assert results[k] in c;
    }
  }

  /** When every result is completed the filter keeps them all. */
  lemma {:induction false} CompletedResultsAll(results: seq<ReconciliationResult>)
    requires forall k :: 0 <= k < |results| ==> results[k].status == Completed
    ensures CompletedResults(results) == results
  {
    if |results| > 0 {
      CompletedResultsAll(results[1..]);
    }
  }

  /** `results.reduce((sum, r) => sum + r.matchedRecords, 0)`. */
  function SumMatched(results: seq<ReconciliationResult>): (r: nat)
    ensures forall k :: 0 <= k < |results| ==> results[k].matchedRecords <= r
    ensures r == 0 <==> forall k :: 0 <= k < |results| ==> results[k].matchedRecords == 0
  {
    if |results| == 0 then 0 else results[0].matchedRecords + SumMatched(results[1..])
  }

  /** `results.reduce((sum, r) => sum + r.unmatchedRecords, 0)`. */
  function SumUnmatched(results: seq<ReconciliationResult>): (r: nat)
    ensures forall k :: 0 <= k < |results| ==> results[k].unmatchedRecords <= r
    ensures r == 0 <==> forall k :: 0 <= k < |results| ==> results[k].unmatchedRecords == 0
  {
    if |results| == 0 then 0 else results[0].unmatchedRecords + SumUnmatched(results[1..])
  }

  /** Summing over the completed results only never gives more than summing
      over all of them. */
  lemma {:induction false} CompletedSumsBounded(results: seq<ReconciliationResult>)
    ensures SumMatched(CompletedResults(results)) <= SumMatched(results)
    ensures SumUnmatched(CompletedResults(results)) <= SumUnmatched(results)
  {
    if |results| > 0 {
      CompletedSumsBounded(results[1..]);
    }
  }

  /** `Math.round(num / den)` on exact rationals: the nearest integer, with
      halves rounded up. */
  function RoundHalfUp(num: nat, den: nat): (r: nat)
    requires den > 0
    ensures den * (2 * r - 1) <= 2 * num < den * (2 * r + 1)
  {
    var q := (2 * num + den) / (2 * den);
    var m := (2 * num + den) % (2 * den);
    assert 2 * num + den == 2 * den * q + m && 0 <= m < 2 * den;
    assert den * (2 * q - 1) == 2 * den * q - den;
    assert den * (2 * q + 1) == 2 * den * q + den;
    q
  }

  lemma MulCancel(d: int, x: int, y: int)
    requires d > 0 && d * x <= d * y
    ensures x <= y
  {
  }

  /** Consequences of the rounding property for a percentage `r` of `m`
      matched out of `m + u`. */
  lemma PercentFacts(m: nat, u: nat, r: nat)
    requires m + u > 0
    requires (m + u) * (2 * r - 1) <= 2 * (100 * m) < (m + u) * (2 * r + 1)
    ensures r <= 100
    ensures u == 0 ==> r == 100
    ensures m == 0 ==> r == 0
  {
    var d := m + u;
    assert d * (2 * r - 1) <= d * 200;
    MulCancel(d, 2 * r - 1, 200);
    if u == 0 {
      assert d * 200 < d * (2 * r + 1);
      MulCancel(d, 200, 2 * r);
    }
    if m == 0 {
      assert d * (2 * r - 1) <= d * 0;
      MulCancel(d, 2 * r - 1, 0);
    }
  }

  /** `Math.round(m / (m + u) * 100)`: an integer percentage of matched
      records, 100 when nothing is unmatched and 0 when nothing matched. */
  function MatchPercent(m: nat, u: nat): (r: nat)
    requires m + u > 0
    ensures r <= 100
    ensures u == 0 ==> r == 100
    ensures m == 0 ==> r == 0
    ensures (m + u) * (2 * r - 1) <= 200 * m < (m + u) * (2 * r + 1)
  {
    var r := RoundHalfUp(100 * m, m + u);
    PercentFacts(m, u, r);
    r
  }
}
