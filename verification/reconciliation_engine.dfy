/** The reconciliation screen. It is given only the cleaned files, offers
    them in two pickers by type, and starts a run only when both pickers hold
    a value and nothing is processing. */
module ReconciliationEngine {
  import opened GstTypes

  /** `selectedGstr2a && selectedInvoice && !isProcessing`: an empty
      selection is falsy. */
  predicate CanReconcile(selectedGstr2a: string, selectedInvoice: string, isProcessing: bool): (b: bool)
    ensures b <==> |selectedGstr2a| > 0 && |selectedInvoice| > 0 && !isProcessing
  {
    Truthy(Some(selectedGstr2a)) && Truthy(Some(selectedInvoice)) && !isProcessing
  }

  /** `handleReconcile`: the `onReconcile(gstr2aId, invoiceId)` call it makes, if any. */
  function HandleReconcile(selectedGstr2a: string, selectedInvoice: string, isProcessing: bool)
    : (call: Option<(string, string)>)
    ensures call.Some? <==> |selectedGstr2a| > 0 && |selectedInvoice| > 0 && !isProcessing
    ensures call.Some? ==> call.value.0 == selectedGstr2a && call.value.1 == selectedInvoice
  {
    if CanReconcile(selectedGstr2a, selectedInvoice, isProcessing) then
      Some((selectedGstr2a, selectedInvoice))
    else None
  }

  /** What the screen shows: the two pickers' options, whether the Start
      button is disabled, and the two "no cleaned files" warnings. */
  datatype View = View(
    gstr2aOptions: seq<FileData>,
    invoiceOptions: seq<FileData>,
    startDisabled: bool,
    gstr2aWarning: bool,
    invoiceWarning: bool)

  function Render(files: seq<FileData>, selectedGstr2a: string, selectedInvoice: string, isProcessing: bool)
    : (v: View)
    ensures v.gstr2aOptions == OfType(files, Gstr2a) && v.invoiceOptions == OfType(files, Invoice)
    ensures |v.gstr2aOptions| + |v.invoiceOptions| == |files|
    ensures forall k :: 0 <= k < |v.gstr2aOptions| ==> v.gstr2aOptions[k].fileType == Gstr2a
    ensures forall k :: 0 <= k < |v.invoiceOptions| ==> v.invoiceOptions[k].fileType == Invoice
    ensures forall f :: f in files <==> f in v.gstr2aOptions || f in v.invoiceOptions
    ensures v.startDisabled <==> HandleReconcile(selectedGstr2a, selectedInvoice, isProcessing).None?
    ensures v.gstr2aWarning <==> |v.gstr2aOptions| == 0
    ensures v.invoiceWarning <==> |v.invoiceOptions| == 0
  {
    OfTypePartition(files);
    var g := OfType(files, Gstr2a);
    var i := OfType(files, Invoice);
    View(g, i, !CanReconcile(selectedGstr2a, selectedInvoice, isProcessing), |g| == 0, |i| == 0)
  }
}
