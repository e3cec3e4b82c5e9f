/** File intake: the upload section validates each selected file, turns the
    accepted ones into `FileData` records and reports the rejected ones as
    "<file name>: <reason>" lines. */
module FileUpload {
  import opened GstTypes
  import opened Text

  /** A browser `File` as the intake sees it: its name, MIME type and size in bytes. */
  datatype UploadFile = UploadFile(name: string, mimeType: string, size: nat)

  /** What one iteration of the intake loop reads from its environment:
      `Date.now()` for the id, `new Date()` for the upload date (both in
      milliseconds), and `floor(Math.random() * 1000)` for the record count. */
  datatype Tick = Tick(clock: nat, date: nat, roll: nat)

  const XlsxMime: string := "application/vnd.openxmlformats-officedocument.spreadsheetml.sheet"
  const XlsMime: string := "application/vnd.ms-excel"
  const CsvMime: string := "text/csv"
  const AllowedTypes: seq<string> := [XlsxMime, XlsMime, CsvMime]

  /** 50 MB: the largest accepted size, itself accepted. */
  const MaxFileSize: nat := 50 * 1024 * 1024

  const TypeErrorMessage: string := "Only Excel (.xlsx, .xls) and CSV files are allowed"
  const SizeErrorMessage: string := "File size must be less than 50MB"

  datatype Validation = Valid | Invalid(error: string)

  /** The MIME allow-list is checked before the size ceiling. */
  function ValidateFile(f: UploadFile): (v: Validation)
    ensures v.Valid? <==> f.mimeType in AllowedTypes && f.size <= MaxFileSize
    ensures f.mimeType !in AllowedTypes ==> v == Invalid(TypeErrorMessage)
    ensures f.mimeType in AllowedTypes && f.size > MaxFileSize ==> v == Invalid(SizeErrorMessage)
  {
    if f.mimeType !in AllowedTypes then Invalid(TypeErrorMessage)
    else if f.size > MaxFileSize then Invalid(SizeErrorMessage)
    else Valid
  }

  /** Exactly 50 MB passes; one byte more is refused with the size message. */
  lemma SizeBoundary(mimeType: string)
    requires mimeType in AllowedTypes
    ensures ValidateFile(UploadFile("f", mimeType, 52428800)) == Valid
    ensures ValidateFile(UploadFile("f", mimeType, 52428801)) == Invalid(SizeErrorMessage)
  {
  }

  /** A file of a foreign type is refused for its type, whatever its size. */
  lemma TypeCheckedFirst(f: UploadFile)
    requires f.mimeType !in AllowedTypes
    ensures ValidateFile(f) == Invalid(TypeErrorMessage)
  {
  }

  // ---------------------------------------------------------------------------
  // Extension stripping: `name.replace(/\.[^/.]+$/, '')`

  predicate NotSeparator(c: char) {
    c != '.' && c != '/'
  }

  /** `s[p..]` is what the pattern matches: a dot, then one or more characters
      that are neither a dot nor a slash, up to the end of the string. */
  predicate ExtensionAt(s: string, p: nat) {
    p + 1 < |s| && s[p] == '.' && forall k :: p < k < |s| ==> NotSeparator(s[k])
  }

  /** Start of the longest run of non-separators that ends at position `i`. */
  function RunStart(s: string, i: nat): (j: nat)
    requires i <= |s|
    ensures j <= i
    ensures forall k :: j <= k < i ==> NotSeparator(s[k])
    ensures j == 0 || !NotSeparator(s[j - 1])
    decreases i
  {
    if i == 0 || !NotSeparator(s[i - 1]) then i else RunStart(s, i - 1)
  }

  /** When the pattern matches at `p`, the final run of non-separators starts
      right after the dot at `p`. */
  lemma RunStartAtExtension(s: string, p: nat)
    requires ExtensionAt(s, p)
    ensures RunStart(s, |s|) == p + 1
  {
    var j := RunStart(s, |s|);
    assert !NotSeparator(s[p]);
  }

  /** The display name: the original name without its final extension. */
  function StripExtension(s: string): (r: string)
    ensures forall p: nat :: ExtensionAt(s, p) ==> r == s[..p]
    ensures r == s <==> forall p: nat :: !ExtensionAt(s, p)
  {
    var j := RunStart(s, |s|);
    forall p: nat | ExtensionAt(s, p)
      ensures j == p + 1
    {
      RunStartAtExtension(s, p);
    }
    if 0 < j < |s| && s[j - 1] == '.' then
      assert ExtensionAt(s, j - 1);
      s[..j - 1]
    else
      s
  }

  lemma StripExtensionExamples()
    ensures StripExtension("a.b.xlsx") == "a.b"
    ensures StripExtension("report") == "report"
    ensures StripExtension("x.") == "x."
    ensures StripExtension("archive.tar.gz") == "archive.tar"
  {
    assert ExtensionAt("a.b.xlsx", 3);
    assert !ExtensionAt("x.", 1);
    assert ExtensionAt("archive.tar.gz", 11);
  }

  // ---------------------------------------------------------------------------
  // Classification and ids

  /** `name.toLowerCase().includes('gstr') ? 'gstr2a' : 'invoice'`. */
  function Classify(name: string): (t: FileType)
    ensures t == Gstr2a <==> exists k :: OccursAt(Lower(name), "gstr", k)
  {
    if Contains(Lower(name), "gstr") then Gstr2a else Invoice
  }

  /** `${Date.now()}_${index}`. */
  function FileId(clock: nat, index: nat): (id: string)
    ensures FirstIndexOf(id, '_') < |id|
    ensures AllDigits(id[..FirstIndexOf(id, '_')]) && AllDigits(id[FirstIndexOf(id, '_') + 1..])
    ensures ParseDecimal(id[..FirstIndexOf(id, '_')]) == clock
    ensures ParseDecimal(id[FirstIndexOf(id, '_') + 1..]) == index
  {
    var c, i := Decimal(clock), Decimal(index);
    FirstUnderscoreAfterDigits(c, i);
    ParseDecimalOfDecimal(clock);
    ParseDecimalOfDecimal(index);
    assert (c + "_" + i)[..|c|] == c;
    assert (c + "_" + i)[|c| + 1..] == i;
    c + "_" + i
  }

  /** Ids built from different loop indices differ, however the clock moved
      between the two readings. */
  lemma FileIdInjective(c1: nat, i1: nat, c2: nat, i2: nat)
    requires FileId(c1, i1) == FileId(c2, i2)
    ensures c1 == c2 && i1 == i2
  {
    UnderscoreJoinInjective(Decimal(c1), Decimal(i1), Decimal(c2), Decimal(i2));
    DecimalInjective(c1, c2);
    DecimalInjective(i1, i2);
  }

  /** The record created for the accepted file at position `index` of the batch. */
  function NewRecord(f: UploadFile, index: nat, t: Tick): (r: FileData)
    requires t.roll < 1000
    ensures r.id == FileId(t.clock, index)
    ensures r.name == StripExtension(f.name) && r.fileType == Classify(f.name)
    ensures r.originalName == f.name && r.size == f.size && r.uploadDate == t.date
    ensures r.status == Uploaded && r.cleanedVersion == None
    ensures r.recordCount == t.roll + 100 && 100 <= r.recordCount <= 1099
  {
    FileData(
      id := FileId(t.clock, index),
      name := StripExtension(f.name),
      originalName := f.name,
      fileType := Classify(f.name),
      size := f.size,
      uploadDate := t.date,
      status := Uploaded,
      recordCount := t.roll + 100,
      cleanedVersion := None)
  }

  /** `${file.name}: ${validation.error}`. */
  function ErrorLine(f: UploadFile, message: string): (line: string)
    ensures |line| == |f.name| + 2 + |message|
    ensures line[..|f.name|] == f.name && line[|f.name|..|f.name| + 2] == ": "
    ensures line[|f.name| + 2..] == message
  {
    f.name + ": " + message
  }

  // ---------------------------------------------------------------------------
  // The batch

  /** The positions below `n` whose file is accepted (`accepted`) or refused
      (`!accepted`), in increasing order. */
  function Positions(files: seq<UploadFile>, n: nat, accepted: bool): (ps: seq<nat>)
    requires n <= |files|
    ensures forall a :: 0 <= a < |ps| ==> ps[a] < n && ValidateFile(files[ps[a]]).Valid? == accepted
    ensures forall a, b :: 0 <= a < b < |ps| ==> ps[a] < ps[b]
    decreases n
  {
    if n == 0 then []
    else if ValidateFile(files[n - 1]).Valid? == accepted then Positions(files, n - 1, accepted) + [n - 1]
    else Positions(files, n - 1, accepted)
  }

  /** Every position with the wanted verdict is listed. */
  lemma {:induction false} PositionsComplete(files: seq<UploadFile>, n: nat, accepted: bool, i: nat)
    requires i < n <= |files|
    requires ValidateFile(files[i]).Valid? == accepted
    ensures i in Positions(files, n, accepted)
    decreases n
  {
    if i < n - 1 {
      PositionsComplete(files, n - 1, accepted, i);
    }
  }

  /** Every position is either accepted or refused, never both. */
  lemma {:induction false} PositionsSplit(files: seq<UploadFile>, n: nat)
    requires n <= |files|
    ensures |Positions(files, n, true)| + |Positions(files, n, false)| == n
    decreases n
  {
    if n > 0 {
      PositionsSplit(files, n - 1);
    }
  }

  /** The records accepted at positions `ps`, in order. */
  predicate AcceptedRecords(files: seq<UploadFile>, ticks: seq<Tick>, ps: seq<nat>, validFiles: seq<FileData>)
    requires |ticks| == |files|
    requires forall a :: 0 <= a < |ps| ==> ps[a] < |files|
    requires forall i :: 0 <= i < |ticks| ==> ticks[i].roll < 1000
  {
    && |validFiles| == |ps|
    && forall a :: 0 <= a < |ps| ==> validFiles[a] == NewRecord(files[ps[a]], ps[a], ticks[ps[a]])
  }

  /** The error lines of the files refused at positions `qs`, in order. */
  predicate RefusalLines(files: seq<UploadFile>, qs: seq<nat>, errors: seq<string>)
    requires forall a :: 0 <= a < |qs| ==> qs[a] < |files| && ValidateFile(files[qs[a]]).Invalid?
  {
    && |errors| == |qs|
    && forall a :: 0 <= a < |qs| ==> errors[a] == ErrorLine(files[qs[a]], ValidateFile(files[qs[a]]).error)
  }

  /** A loop step on an accepted file appends its record and no error line. */
  lemma AcceptStep(files: seq<UploadFile>, ticks: seq<Tick>, i: nat, validFiles: seq<FileData>, errors: seq<string>)
    requires |ticks| == |files|
    requires forall i :: 0 <= i < |ticks| ==> ticks[i].roll < 1000
    requires i < |files| && ValidateFile(files[i]).Valid?
    requires AcceptedRecords(files, ticks, Positions(files, i, true), validFiles)
    requires RefusalLines(files, Positions(files, i, false), errors)
    ensures AcceptedRecords(files, ticks, Positions(files, i + 1, true), validFiles + [NewRecord(files[i], i, ticks[i])])
    ensures RefusalLines(files, Positions(files, i + 1, false), errors)
  {
    assert Positions(files, i + 1, true) == Positions(files, i, true) + [i];
  }

  /** A loop step on a refused file appends its error line and no record. */
  lemma RefuseStep(files: seq<UploadFile>, ticks: seq<Tick>, i: nat, validFiles: seq<FileData>, errors: seq<string>)
    requires |ticks| == |files|
    requires forall i :: 0 <= i < |ticks| ==> ticks[i].roll < 1000
    requires i < |files| && ValidateFile(files[i]).Invalid?
    requires AcceptedRecords(files, ticks, Positions(files, i, true), validFiles)
    requires RefusalLines(files, Positions(files, i, false), errors)
    ensures AcceptedRecords(files, ticks, Positions(files, i + 1, true), validFiles)
    ensures RefusalLines(files, Positions(files, i + 1, false), errors + [ErrorLine(files[i], ValidateFile(files[i]).error)])
  {
    assert Positions(files, i + 1, false) == Positions(files, i, false) + [i];
  }

  /** The `forEach` loop of `processFiles`: every file, in order, either
      becomes a record or an error line. */
  method SplitBatch(files: seq<UploadFile>, ticks: seq<Tick>)
    returns (validFiles: seq<FileData>, errors: seq<string>)
    requires |ticks| == |files|
    requires forall i :: 0 <= i < |ticks| ==> ticks[i].roll < 1000
    ensures AcceptedRecords(files, ticks, Positions(files, |files|, true), validFiles)
    ensures RefusalLines(files, Positions(files, |files|, false), errors)
  {
    validFiles := [];
    errors := [];
    var i := 0;
    while i < |files|
      invariant i <= |files|
      invariant AcceptedRecords(files, ticks, Positions(files, i, true), validFiles)
      invariant RefusalLines(files, Positions(files, i, false), errors)
    {
      if ValidateFile(files[i]).Valid? {
        AcceptStep(files, ticks, i, validFiles, errors);
        validFiles := validFiles + [NewRecord(files[i], i, ticks[i])];
      } else {
        RefuseStep(files, ticks, i, validFiles, errors);
        errors := errors + [ErrorLine(files[i], ValidateFile(files[i]).error)];
      }
      i := i + 1;
    }
  }

  /** Records created at different positions get different ids. */
  lemma RecordIdsDiffer(f1: UploadFile, i1: nat, t1: Tick, f2: UploadFile, i2: nat, t2: Tick)
    requires t1.roll < 1000 && t2.roll < 1000
    requires i1 != i2
    ensures NewRecord(f1, i1, t1).id != NewRecord(f2, i2, t2).id
  {
    if FileId(t1.clock, i1) == FileId(t2.clock, i2) {
      FileIdInjective(t1.clock, i1, t2.clock, i2);
    }
  }

  /** Records created from distinct positions of one batch have distinct ids,
      whatever the clock reads. */
  lemma BatchIdsDistinct(files: seq<UploadFile>, ticks: seq<Tick>, ps: seq<nat>, validFiles: seq<FileData>)
    requires |ticks| == |files|
    requires forall i :: 0 <= i < |ticks| ==> ticks[i].roll < 1000
    requires forall a :: 0 <= a < |ps| ==> ps[a] < |files|
    requires forall a, b :: 0 <= a < b < |ps| ==> ps[a] < ps[b]
    requires AcceptedRecords(files, ticks, ps, validFiles)
    ensures forall a, b :: 0 <= a < b < |validFiles| ==> validFiles[a].id != validFiles[b].id
  {
    forall a, b | 0 <= a < b < |validFiles|
      ensures validFiles[a].id != validFiles[b].id
    {
      assert ps[a] < ps[b];
      RecordIdsDiffer(files[ps[a]], ps[a], ticks[ps[a]], files[ps[b]], ps[b], ticks[ps[b]]);
    }
  }

  /** `processFiles`: splits the batch into accepted records and error lines,
      each in input order, and calls `onFileUpload` (the `call` result) only
      when at least one file was accepted, with exactly the accepted records. */
  method ProcessFiles(files: seq<UploadFile>, ticks: seq<Tick>)
    returns (validFiles: seq<FileData>, errors: seq<string>, call: Option<seq<FileData>>)
    requires |ticks| == |files|
    requires forall i :: 0 <= i < |ticks| ==> ticks[i].roll < 1000
    ensures |validFiles| + |errors| == |files|
    ensures var ps := Positions(files, |files|, true);
      && |validFiles| == |ps|
      && forall a :: 0 <= a < |ps| ==> validFiles[a] == NewRecord(files[ps[a]], ps[a], ticks[ps[a]])
    ensures var qs := Positions(files, |files|, false);
      && |errors| == |qs|
      && forall a :: 0 <= a < |qs| ==> errors[a] == ErrorLine(files[qs[a]], ValidateFile(files[qs[a]]).error)
    ensures forall a :: 0 <= a < |validFiles| ==>
      && validFiles[a].status == Uploaded && validFiles[a].cleanedVersion == None
      && 100 <= validFiles[a].recordCount <= 1099
    ensures forall a, b :: 0 <= a < b < |validFiles| ==> validFiles[a].id != validFiles[b].id
    ensures call.Some? <==> exists i :: 0 <= i < |files| && ValidateFile(files[i]).Valid?
    ensures call.Some? <==> |validFiles| > 0
    ensures call.Some? ==> call.value == validFiles
  {
    validFiles, errors := SplitBatch(files, ticks);
    PositionsSplit(files, |files|);
    var ps := Positions(files, |files|, true);
    BatchIdsDistinct(files, ticks, ps, validFiles);
    if exists i :: 0 <= i < |files| && ValidateFile(files[i]).Valid? {
      var i :| 0 <= i < |files| && ValidateFile(files[i]).Valid?;
      PositionsComplete(files, |files|, true, i);
    }
    if |ps| > 0 {
      assert 0 <= ps[0] < |files| && ValidateFile(files[ps[0]]).Valid?;
    }
    call := if |validFiles| > 0 then Some(validFiles) else None;
  }
}
