/** The page's session state and its four handlers. Each handler is one
    atomic transition: the progress timers run to completion in between, so
    `isProcessing` is false again whenever a handler has finished. */
module Session {
  import opened GstTypes
  import opened Text

  /** The page state: the file registry, the result history (newest first)
      and the processing flag. */
  datatype State = State(files: seq<FileData>, results: seq<ReconciliationResult>, isProcessing: bool)

  const Initial: State := State([], [], false)

  /** What `handleReconciliation` reads from its environment: `Date.now()`
      for the id, `new Date()` for the timestamp, `Date.now()` again for the
      report path, and `floor(Math.random() * 1000)` and
      `floor(Math.random() * 100)` for the two counts. */
  datatype ReconEnv = ReconEnv(clock: nat, date: nat, reportClock: nat, matchedRoll: nat, unmatchedRoll: nat)

  /** `Math.random()` lies in [0, 1), so the two draws stay below their scales. */
  predicate ValidEnv(env: ReconEnv) {
    env.matchedRoll < 1000 && env.unmatchedRoll < 100
  }

  // ---------------------------------------------------------------------------
  // Upload

  /** `handleFileUpload`: the new files go after the existing ones. */
  function HandleFileUpload(s: State, uploaded: seq<FileData>): (t: State)
    ensures |t.files| == |s.files| + |uploaded|
    ensures forall k :: 0 <= k < |s.files| ==> t.files[k] == s.files[k]
    ensures forall k :: 0 <= k < |uploaded| ==> t.files[|s.files| + k] == uploaded[k]
    ensures t.results == s.results && t.isProcessing == s.isProcessing
  {
    s.(files := s.files + uploaded)
  }

  // ---------------------------------------------------------------------------
  // Cleaning

  /** The name the cleaned copy of a file gets. */
  function CleanedName(originalName: string): (c: string)
    ensures |c| == |originalName| + |"_cleaned.xlsx"|
    ensures c[..|originalName|] == originalName
    ensures c[|originalName|..] == "_cleaned.xlsx"
  {
    originalName + "_cleaned.xlsx"
  }

  /** Different originals never share a cleaned copy name. */
  lemma CleanedNameInjective(a: string, b: string)
    requires CleanedName(a) == CleanedName(b)
    ensures a == b
  {
    assert |a| == |b|;
    assert a == CleanedName(a)[..|a|];
  }

  /** One file after cleaning: only its status and cleaned version change. */
  function MarkCleaned(f: FileData): (g: FileData)
    ensures g.status == Cleaned && g.cleanedVersion == Some(CleanedName(f.originalName))
    ensures g.id == f.id && g.name == f.name && g.originalName == f.originalName
    ensures g.fileType == f.fileType && g.size == f.size && g.uploadDate == f.uploadDate
    ensures g.recordCount == f.recordCount
  {
    f.(status := Cleaned, cleanedVersion := Some(CleanedName(f.originalName)))
  }

  /** `prev.map(file => file.id === fileId ? {...cleaned} : file)`. */
  function CleanFiles(files: seq<FileData>, fileId: string): (r: seq<FileData>)
    ensures |r| == |files|
    ensures forall k :: 0 <= k < |files| && files[k].id == fileId ==> r[k] == MarkCleaned(files[k])
    ensures forall k :: 0 <= k < |files| && files[k].id != fileId ==> r[k] == files[k]
    decreases |files|
  {
    if |files| == 0 then []
    else
      var head := if files[0].id == fileId then MarkCleaned(files[0]) else files[0];
      [head] + CleanFiles(files[1..], fileId)
  }

  /** Cleaning an id no file carries changes nothing. */
  lemma CleanAbsentIsNoop(files: seq<FileData>, fileId: string)
    requires forall k :: 0 <= k < |files| ==> files[k].id != fileId
    ensures CleanFiles(files, fileId) == files
  {
  }

  /** Cleaning the same file twice is the same as cleaning it once. */
  lemma CleanIdempotent(files: seq<FileData>, fileId: string)
    ensures CleanFiles(CleanFiles(files, fileId), fileId) == CleanFiles(files, fileId)
  {
  }

  /** `handleDataCleaning`: marks the file(s) with the id as cleaned; the
      results are untouched and processing is over afterwards. */
  function HandleDataCleaning(s: State, fileId: string): (t: State)
    ensures t.files == CleanFiles(s.files, fileId)
    ensures t.results == s.results && !t.isProcessing
  {
    State(CleanFiles(s.files, fileId), s.results, false)
  }

  // ---------------------------------------------------------------------------
  // Lookup and deletion

  /** `files.find(f => f.id === id)`: the first file with the id, if any. */
  function FindFile(files: seq<FileData>, id: string): (r: Option<FileData>)
    ensures r.None? <==> forall k :: 0 <= k < |files| ==> files[k].id != id
    ensures r.Some? ==> r.value.id == id
    ensures r.Some? ==> exists k :: (0 <= k < |files| && files[k] == r.value
      && forall j :: 0 <= j < k ==> files[j].id != id)
    decreases |files|
  {
    if |files| == 0 then None
    else if files[0].id == id then Some(files[0])
    else
      var r := FindFile(files[1..], id);
      if r.Some? then
        ghost var k :| 0 <= k < |files| - 1 && files[1..][k] == r.value
          && forall j :: 0 <= j < k ==> files[1..][j].id != id;
        assert files[k + 1] == r.value;
        r
      else
        r
  }

  /** `prev.filter(f => f.id !== fileId)`. */
  function DeleteFile(files: seq<FileData>, fileId: string): (r: seq<FileData>)
    ensures |r| <= |files|
    ensures forall k :: 0 <= k < |r| ==> r[k].id != fileId
    ensures forall f :: f in r <==> f in files && f.id != fileId
    decreases |files|
  {
    if |files| == 0 then []
    else if files[0].id == fileId then DeleteFile(files[1..], fileId)
    else [files[0]] + DeleteFile(files[1..], fileId)
  }

  /** Deleting an id no file carries is a no-op. */
  lemma {:induction false} DeleteAbsentIsNoop(files: seq<FileData>, fileId: string)
    requires forall k :: 0 <= k < |files| ==> files[k].id != fileId
    ensures DeleteFile(files, fileId) == files
  {
    if |files| > 0 {
      DeleteAbsentIsNoop(files[1..], fileId);
    }
  }

  /** Deletion works piecewise, so the survivors keep their relative order. */
  lemma {:induction false} DeleteAppend(a: seq<FileData>, b: seq<FileData>, fileId: string)
    ensures DeleteFile(a + b, fileId) == DeleteFile(a, fileId) + DeleteFile(b, fileId)
  {
    if |a| == 0 {
      assert a + b == b;
    } else {
      assert (a + b)[1..] == a[1..] + b;
      DeleteAppend(a[1..], b, fileId);
    }
  }

  /** How many files carry the id. */
  function CountId(files: seq<FileData>, fileId: string): nat {
    if |files| == 0 then 0
    else (if files[0].id == fileId then 1 else 0) + CountId(files[1..], fileId)
  }

  /** Exactly the files carrying the id are removed. */
  lemma {:induction false} DeleteCount(files: seq<FileData>, fileId: string)
    ensures |DeleteFile(files, fileId)| + CountId(files, fileId) == |files|
  {
    if |files| > 0 {
      DeleteCount(files[1..], fileId);
    }
  }

  /** `deleteFile`: only the registry changes. */
  function HandleDeleteFile(s: State, fileId: string): (t: State)
    ensures t.files == DeleteFile(s.files, fileId)
    ensures t.results == s.results && t.isProcessing == s.isProcessing
  {
    s.(files := DeleteFile(s.files, fileId))
  }

  // ---------------------------------------------------------------------------
  // Reconciliation

  /** The result a successful run records; the counts are the two random
      draws shifted into [500, 1499] and [10, 109]. */
  function NewResult(g: FileData, i: FileData, env: ReconEnv): (r: ReconciliationResult)
    requires ValidEnv(env)
    ensures r.gstr2aFile == g.name && r.invoiceFile == i.name
    ensures r.status == Completed && r.variances == []
    ensures r.id == Decimal(env.clock) && r.timestamp == env.date
    ensures r.matchedRecords == env.matchedRoll + 500 && r.unmatchedRecords == env.unmatchedRoll + 10
    ensures 500 <= r.matchedRecords <= 1499 && 10 <= r.unmatchedRecords <= 109
    ensures r.reportPath == Some("reconciliation_report_" + Decimal(env.reportClock) + ".xlsx")
    ensures Truthy(r.reportPath)
  {
    ReconciliationResult(
      id := Decimal(env.clock),
      timestamp := env.date,
      gstr2aFile := g.name,
      invoiceFile := i.name,
      matchedRecords := env.matchedRoll + 500,
      unmatchedRecords := env.unmatchedRoll + 10,
      variances := [],
      status := Completed,
      reportPath := Some("reconciliation_report_" + Decimal(env.reportClock) + ".xlsx"))
  }

  /** `handleReconciliation`: looks both ids up in the whole registry; if
      either is missing the run fails and records nothing, otherwise one
      completed result is put in front of the history. */
  function HandleReconciliation(s: State, gstr2aFileId: string, invoiceFileId: string, env: ReconEnv): (t: State)
    requires ValidEnv(env)
    ensures t.files == s.files && !t.isProcessing
    ensures FindFile(s.files, gstr2aFileId).None? || FindFile(s.files, invoiceFileId).None? ==>
      t.results == s.results
    ensures FindFile(s.files, gstr2aFileId).Some? && FindFile(s.files, invoiceFileId).Some? ==>
      && |t.results| == |s.results| + 1
      && t.results[1..] == s.results
      && t.results[0] == NewResult(FindFile(s.files, gstr2aFileId).value, FindFile(s.files, invoiceFileId).value, env)
  {
    var g := FindFile(s.files, gstr2aFileId);
    var i := FindFile(s.files, invoiceFileId);
    if g.None? || i.None? then
      s.(isProcessing := false)
    else
      State(s.files, [NewResult(g.value, i.value, env)] + s.results, false)
  }

  /** A run naming an id that no file carries adds no result. */
  lemma ReconcileMissingAddsNothing(s: State, gstr2aFileId: string, invoiceFileId: string, env: ReconEnv)
    requires ValidEnv(env)
    requires !(exists k :: 0 <= k < |s.files| && s.files[k].id == gstr2aFileId)
      || !(exists k :: 0 <= k < |s.files| && s.files[k].id == invoiceFileId)
    ensures HandleReconciliation(s, gstr2aFileId, invoiceFileId, env).results == s.results
  {
  }
}
