/** The records shared by every component: an uploaded file and the result of
    one reconciliation run, as the page declares them, plus the
    `files.filter(f => f.type === t)` split that three components repeat. */
module GstTypes {

  datatype Option<+T> = None | Some(value: T)

  /** The two families of spreadsheet the tool accepts. */
  datatype FileType = Gstr2a | Invoice

  /** Lifecycle of an uploaded file. `Processed` and `Error` are declared but
      no handler ever assigns them. */
  datatype FileStatus = Uploaded | Cleaned | Processed | Error

  datatype ResultStatus = Completed | Failed | Processing

  /** One uploaded file. Times are milliseconds since the epoch. The parsed
      rows (`data`) and per-file `errors` are never filled in and are left out. */
  datatype FileData = FileData(
    id: string,
    name: string,
    originalName: string,
    fileType: FileType,
    size: nat,
    uploadDate: nat,
    status: FileStatus,
    recordCount: nat,
    cleanedVersion: Option<string>)

  /** One reconciliation run. `variances` is always created empty; its element
      type is never fixed, so elements are kept as opaque strings. */
  datatype ReconciliationResult = ReconciliationResult(
    id: string,
    timestamp: nat,
    gstr2aFile: string,
    invoiceFile: string,
    matchedRecords: nat,
    unmatchedRecords: nat,
    variances: seq<string>,
    status: ResultStatus,
    reportPath: Option<string>)

  /** The colour family of a status badge; the badge's classes are
      "bg-<colour>-100 text-<colour>-800". */
  datatype Tone = Yellow | Green | Blue | Red | Gray

  function ToneName(t: Tone): string {
    match t
    case Yellow => "yellow"
    case Green => "green"
    case Blue => "blue"
    case Red => "red"
    case Gray => "gray"
  }

  function BadgeClass(t: Tone): string {
    "bg-" + ToneName(t) + "-100 text-" + ToneName(t) + "-800"
  }

  /** Different colours give different badge classes: the class string
      determines the colour. */
  lemma BadgeClassInjective(a: Tone, b: Tone)
    requires BadgeClass(a) == BadgeClass(b)
    ensures a == b
  {
    assert BadgeClass(a)[3] == ToneName(a)[0] && BadgeClass(a)[5] == ToneName(a)[2];
    assert BadgeClass(b)[3] == ToneName(b)[0] && BadgeClass(b)[5] == ToneName(b)[2];
  }

  /** A JavaScript optional string is truthy exactly when present and non-empty. */
  predicate Truthy(o: Option<string>) {
    o.Some? && |o.value| > 0
  }

  /** `files.filter(f => f.type === t)`. */
  function OfType(files: seq<FileData>, t: FileType): (r: seq<FileData>)
    ensures |r| <= |files|
    ensures forall k :: 0 <= k < |r| ==> r[k].fileType == t
    ensures forall f :: f in files && f.fileType == t <==> f in r
  {
    if |files| == 0 then []
    else if files[0].fileType == t then [files[0]] + OfType(files[1..], t)
    else OfType(files[1..], t)
  }

  /** The GSTR-2A and invoice lists split the files between them: their
      lengths add up to the whole list. */
  lemma {:induction false} OfTypePartition(files: seq<FileData>)
    ensures |OfType(files, Gstr2a)| + |OfType(files, Invoice)| == |files|
  {
    if |files| > 0 {
      OfTypePartition(files[1..]);
    }
  }

  /** A type's list is empty exactly when no file has that type. */
  lemma OfTypeEmpty(files: seq<FileData>, t: FileType)
    ensures |OfType(files, t)| == 0 <==> forall k :: 0 <= k < |files| ==> files[k].fileType != t
  {
    var r := OfType(files, t);
    if |r| > 0 {
      assert r[0] in files;
    }
    if exists k :: 0 <= k < |files| && files[k].fileType == t {
      var k :| 0 <= k < |files| && files[k].fileType == t;
      assert files[k] in r;
    }
  }

  /** The filter keeps input order: filtering a concatenation filters each
      part and concatenates the results. */
  lemma {:induction false} OfTypeAppend(a: seq<FileData>, b: seq<FileData>, t: FileType)
    ensures OfType(a + b, t) == OfType(a, t) + OfType(b, t)
  {
    if |a| == 0 {
      assert a + b == b;
    } else {
      assert (a + b)[1..] == a[1..] + b;
      OfTypeAppend(a[1..], b, t);
    }
  }

  /** `files.filter(f => f.status === s)`. */
  function WithStatus(files: seq<FileData>, s: FileStatus): (r: seq<FileData>)
    ensures |r| <= |files|
    ensures forall k :: 0 <= k < |r| ==> r[k].status == s
    ensures forall f :: f in files && f.status == s <==> f in r
  {
    if |files| == 0 then []
    else if files[0].status == s then [files[0]] + WithStatus(files[1..], s)
    else WithStatus(files[1..], s)
  }

  /** The status filter keeps input order, like the type filter. */
  lemma {:induction false} WithStatusAppend(a: seq<FileData>, b: seq<FileData>, s: FileStatus)
    ensures WithStatus(a + b, s) == WithStatus(a, s) + WithStatus(b, s)
  {
    if |a| == 0 {
      assert a + b == b;
    } else {
      assert (a + b)[1..] == a[1..] + b;
      WithStatusAppend(a[1..], b, s);
    }
  }
}
