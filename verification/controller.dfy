/** The HTTP entry points' decisions (controller/PdfAnalysisController.java):
    which uploads are turned away, with which message, and which file the
    report endpoint sends back. The analysis run itself, the headers it adds
    and the streaming of files are not modelled. */
module UploadController {

  import opened Wrappers
  import opened JavaString

  /** 50 MiB, the largest upload the report endpoint takes. */
  const MaxUploadBytes: nat := 50 * 1024 * 1024

  /** An uploaded file: its original name, which may be missing, and its size
      in bytes. A file is empty when it has no content. */
  datatype Upload = Upload(filename: Option<string>, size: nat)

  datatype Rejection = EmptyFile | InvalidFormat | TooLarge

  /** The body of the 400 response for each rejection. */
  function Message(r: Rejection): string {
    match r
    case EmptyFile => "Empty file. Please upload a valid PDF file."
    case InvalidFormat => "Invalid format. Only PDF files accepted."
    case TooLarge => "File too large. Maximum size: 50MB."
  }

  /** The name is present and ends in `.pdf`, ignoring case. */
  predicate HasPdfExtension(name: Option<string>) {
    name.Some? && EndsWith(ToLower(name.value), ".pdf")
  }

  /** The checks of `analyze`, in order (controller/PdfAnalysisController.java:52-61):
      emptiness first, then the extension, then the size limit. */
  function ValidateForReport(f: Upload): (r: Option<Rejection>)
    ensures r == Some(EmptyFile) <==> f.size == 0
    ensures r == Some(InvalidFormat) <==> f.size > 0 && !HasPdfExtension(f.filename)
    ensures r == Some(TooLarge) <==> f.size > 0 && HasPdfExtension(f.filename) && f.size > MaxUploadBytes
    ensures r == None <==> 0 < f.size <= MaxUploadBytes && HasPdfExtension(f.filename)
  {
    if f.size == 0 then Some(EmptyFile)
    else if !HasPdfExtension(f.filename) then Some(InvalidFormat)
    else if f.size > MaxUploadBytes then Some(TooLarge)
    else None
  }

  /** The checks of `analyzeJson` (controller/PdfAnalysisController.java:125-131):
      the same two first checks and no size limit. */
  function ValidateForJson(f: Upload): (r: Option<Rejection>)
    ensures r != Some(TooLarge)
    ensures r == None <==> f.size > 0 && HasPdfExtension(f.filename)
  {
    if f.size == 0 then Some(EmptyFile)
    else if !HasPdfExtension(f.filename) then Some(InvalidFormat)
    else None
  }

  /** The JSON endpoint disagrees with the report endpoint only on uploads
      the report endpoint finds too large, and takes those. */
  lemma JsonDiffersOnlyOnSize(f: Upload)
    ensures ValidateForJson(f) == if ValidateForReport(f) == Some(TooLarge) then None else ValidateForReport(f)
  {
  }

  /** Exactly 50 MiB passes; one byte more is too large. */
  lemma SizeLimitBoundary()
    ensures ValidateForReport(Upload(Some("report.pdf"), MaxUploadBytes)) == None
    ensures ValidateForReport(Upload(Some("report.pdf"), MaxUploadBytes + 1)) == Some(TooLarge)
    ensures ValidateForJson(Upload(Some("report.pdf"), MaxUploadBytes + 1)) == None
  {
    assert EndsWith(ToLower("report.pdf"), ".pdf") by {
      assert ToLower("report.pdf") == "report.pdf";
    }
  }

  /** The extension check ignores case. */
  lemma UpperCaseExtensionAccepted()
    ensures ValidateForReport(Upload(Some("SPEC.PDF"), 1)) == None
  {
    assert ToLower("SPEC.PDF") == "spec.pdf";
  }

  /** How the pipeline run ended: with the files it produced, or with an
      exception and its message. */
  datatype AnalysisRun =
    | Completed(pdfExists: bool, texExists: bool)
    | Crashed(message: Option<string>)

  datatype Response =
    | Attachment(fileName: string, contentType: string, warning: Option<string>)
    | ServerError(error: string, message: Option<string>)

  /** The response of `analyze` once the upload is accepted
      (controller/PdfAnalysisController.java:79-109): the PDF when it was
      produced, else the LaTeX source with a warning, else a server error. */
  function SelectResponse(run: AnalysisRun): (r: Response)
    ensures r.Attachment? <==> run.Completed? && (run.pdfExists || run.texExists)
    ensures r.Attachment? ==> (r.fileName == "audit-report.pdf" <==> run.pdfExists)
    ensures r.Attachment? ==> (r.warning.Some? <==> !run.pdfExists)
    ensures run.Crashed? ==> r.ServerError? && r.message.Some?
  {
    match run
    case Completed(pdf, tex) =>
      if pdf then Attachment("audit-report.pdf", "application/pdf", None)
      else if tex then
        Attachment("audit-report.tex", "text/plain", Some("PDF compilation failed, returning LaTeX source file"))
      else ServerError("No output file generated", None)
    case Crashed(msg) =>
      ServerError("Error during analysis", Some(if msg.Some? then msg.value else "Unknown error"))
  }
}
