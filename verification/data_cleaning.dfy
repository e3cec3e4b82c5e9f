/** The cleaning panel: the registry split into a GSTR-2A and an invoice
    section, and for each file its badge and which action buttons it offers. */
module DataCleaning {
  import opened GstTypes

  /** `getStatusColor` of the cleaning panel. */
  function StatusTone(status: FileStatus): (t: Tone)
    ensures t == Yellow <==> status == Uploaded
    ensures t == Green <==> status == Cleaned
    ensures t == Blue <==> status == Processed
    ensures t == Red <==> status == Error
    ensures t != Gray
  {
    match status
    case Uploaded => Yellow
    case Cleaned => Green
    case Processed => Blue
    case Error => Red
  }

  /** The four statuses get four different colours. */
  lemma StatusToneInjective(a: FileStatus, b: FileStatus)
    requires StatusTone(a) == StatusTone(b)
    ensures a == b
  {
  }

  /** `formatFileSize`, of which only the zero case is modelled: `None`
      stands for every non-zero size, whose text depends on floating-point
      logarithms. */
  function FormatZeroSize(bytes: nat): (r: Option<string>)
    ensures r.Some? <==> bytes == 0
    ensures r.Some? ==> r.value == "0 Bytes"
  {
    if bytes == 0 then Some("0 Bytes") else None
  }

  /** A button that is not rendered, rendered but disabled, or clickable. */
  datatype Button = Hidden | Disabled | Enabled

  /** One file row. The view and delete buttons are always present. */
  datatype Row = Row(
    fileId: string,
    badge: Tone,
    badgeClass: string,
    view: bool,
    clean: Button,
    download: bool,
    delete: bool,
    cleanedLine: Option<string>)

  function RenderRow(f: FileData, isProcessing: bool): (r: Row)
    ensures r.fileId == f.id && r.badge == StatusTone(f.status)
    ensures r.badgeClass == BadgeClass(r.badge)
    ensures r.clean != Hidden <==> f.status == Uploaded
    ensures r.clean == Enabled <==> f.status == Uploaded && !isProcessing
    ensures r.download <==> Truthy(f.cleanedVersion)
    ensures r.cleanedLine.Some? <==> Truthy(f.cleanedVersion)
    ensures r.cleanedLine.Some? ==> r.cleanedLine == f.cleanedVersion
    ensures r.view && r.delete
  {
    Row(
      fileId := f.id,
      badge := StatusTone(f.status),
      badgeClass := BadgeClass(StatusTone(f.status)),
      view := true,
      clean := if f.status != Uploaded then Hidden else if isProcessing then Disabled else Enabled,
      download := Truthy(f.cleanedVersion),
      delete := true,
      cleanedLine := if Truthy(f.cleanedVersion) then f.cleanedVersion else None)
  }

  /** What a click on a row's Clean button does: it asks the page to clean
      the row's file, and only when the button is clickable. */
  function CleanClick(r: Row): (request: Option<string>)
    ensures request.Some? <==> r.clean == Enabled
    ensures request.Some? ==> request.value == r.fileId
  {
    if r.clean == Enabled then Some(r.fileId) else None
  }

  /** One section of the panel: its rows, or the "no files uploaded yet" note. */
  datatype Section = Section(rows: seq<Row>, emptyNote: bool)

  function RenderSection(files: seq<FileData>, isProcessing: bool): (s: Section)
    ensures |s.rows| == |files|
    ensures s.emptyNote <==> |files| == 0
    ensures forall k :: 0 <= k < |files| ==> s.rows[k] == RenderRow(files[k], isProcessing)
  {
    Section(seq(|files|, k requires 0 <= k < |files| => RenderRow(files[k], isProcessing)), |files| == 0)
  }

  datatype Panel = Panel(gstr2a: Section, invoice: Section)

  /** The panel: every file appears in exactly one of the two sections. */
  function RenderPanel(files: seq<FileData>, isProcessing: bool): (p: Panel)
    ensures |p.gstr2a.rows| + |p.invoice.rows| == |files|
    ensures p.gstr2a.emptyNote <==> forall k :: 0 <= k < |files| ==> files[k].fileType != Gstr2a
    ensures p.invoice.emptyNote <==> forall k :: 0 <= k < |files| ==> files[k].fileType != Invoice
    ensures p.gstr2a == RenderSection(OfType(files, Gstr2a), isProcessing)
    ensures p.invoice == RenderSection(OfType(files, Invoice), isProcessing)
  {
    OfTypePartition(files);
    OfTypeEmpty(files, Gstr2a);
    OfTypeEmpty(files, Invoice);
    var g := OfType(files, Gstr2a);
    var i := OfType(files, Invoice);
    Panel(RenderSection(g, isProcessing), RenderSection(i, isProcessing))
  }
}
