/** One upload from start to screen: the text is taken from the file according to its
    media type, the language model's answer is parsed into fields, "Calculated Age" is
    added, and the page shows either the text and the fields or an error message. What
    the outside libraries and the model produce are inputs; a failure of one of them is
    an exception the program does not catch. */
module Pipeline {
  import opened Wrappers
  import opened PyText
  import opened OrderedDict
  import opened FieldParser
  import opened Strptime
  import opened DobScan
  import opened PdfText

  /** The uncaught exception of an outside call: opening or reading the PDF, OCR,
      UTF-8 decoding, or the language model. */
  datatype Fault = PdfFailed | OcrFailed | DecodeFailed | ModelFailed

  /** An uploaded file as the program sees it: its reported media type and what each
      library would produce for it if called. */
  datatype Upload = Upload(
    mediaType: string,
    pdfPages: Result<seq<string>, Fault>,
    ocr: Result<string, Fault>,
    decoded: Result<string, Fault>)

  /** The two outcomes on the page. */
  datatype Screen = ErrorMessage | Display(text: string, fields: Dict)

  /** Python's truth value of the extracted text: `None` and `""` are false. */
  predicate Truthy(t: Option<string>) {
    t.Some? && t.value != ""
  }

  /** The media types read with OCR. */
  predicate IsImageType(mediaType: string) {
    mediaType == "image/png" || mediaType == "image/jpeg"
  }

  /** `extracted_text` after the media-type dispatch. */
  function ExtractText(u: Upload): (r: Result<Option<string>, Fault>)
  {
    if u.mediaType == "application/pdf" then
      match u.pdfPages
      case Failure(f) => Failure(f)
      case Success(pages) =>
        match PdfTextOf(pages)
        case Some(t) => Success(Some(t))
        case None =>
          match u.ocr
          case Failure(f) => Failure(f)
          case Success(t) => Success(Some(t))
    else if u.mediaType == "text/plain" then
      match u.decoded
      case Failure(f) => Failure(f)
      case Success(t) => Success(Some(t))
    else if IsImageType(u.mediaType) then
      match u.ocr
      case Failure(f) => Failure(f)
      case Success(t) => Success(Some(t))
    else
      Success(None)
  }

  /** The text of the prompt before and after the document text, with the whitespace of
      the source's triple-quoted string. */
  const PromptHead: string :=
    "Extract the key-value pairs from the following document text. \n"
    + "    Output only the pairs in this format: Key: Value. Avoid additional commentary.\n\n"
    + "    Text:\n    "
  const PromptTail: string := "\n    "

  /** The prompt sent to the model; the document text can be read back from it. */
  function Prompt(text: string): (p: string)
    ensures |p| == |PromptHead| + |text| + |PromptTail|
    ensures p[|PromptHead|..|p| - |PromptTail|] == text
  {
    var p := PromptHead + text + PromptTail;
    assert p[|PromptHead|..|p| - |PromptTail|] == text;
    p
  }

  /** The program on one upload, with the model as `llm` (prompt to response text) and the
      scan for "Calculated Age" taken over a snapshot of the entries. */
  function RunForm(u: Upload, llm: string -> Result<string, Fault>, today: Date): (r: Result<Screen, Fault>)
  {
    match ExtractText(u)
    case Failure(f) => Failure(f)
    case Success(t) =>
      if !Truthy(t) then Success(ErrorMessage)
      else
        match llm(Prompt(t.value))
        case Failure(f) => Failure(f)
        case Success(resp) => Success(Display(t.value, AgeFieldScan(ParseFields(resp), AgeOn(today))))
  }

  /** Two uploads that differ only in what OCR would produce. */
  predicate SameButOcr(u: Upload, v: Upload) {
    u.mediaType == v.mediaType && u.pdfPages == v.pdfPages && u.decoded == v.decoded
  }

  /** A PDF with text gives that text, and OCR is not consulted; a PDF whose pages are all
      blank gives what OCR gives. */
  lemma PdfDispatch(u: Upload, v: Upload)
    requires u.mediaType == "application/pdf" && u.pdfPages.Success? && SameButOcr(u, v)
    ensures PdfTextOf(u.pdfPages.value).Some? ==>
      ExtractText(u) == ExtractText(v) == Success(Some(PagesText(u.pdfPages.value)))
    ensures (forall i :: 0 <= i < |u.pdfPages.value| ==> IsBlank(u.pdfPages.value[i])) ==>
      ExtractText(u) == match u.ocr case Failure(f) => Failure(f) case Success(t) => Success(Some(t))
  {
  }

  /** A plain-text upload gives its decoded text, an image its OCR text, and any other
      media type no text; only the input the media type names is consulted. */
  lemma OtherDispatch(u: Upload)
    requires u.mediaType != "application/pdf"
    ensures u.mediaType == "text/plain" ==>
      ExtractText(u) == match u.decoded case Failure(f) => Failure(f) case Success(t) => Success(Some(t))
    ensures IsImageType(u.mediaType) ==>
      ExtractText(u) == match u.ocr case Failure(f) => Failure(f) case Success(t) => Success(Some(t))
    ensures u.mediaType != "text/plain" && !IsImageType(u.mediaType) ==>
      ExtractText(u) == Success(None)
    ensures forall v :: SameButOcr(u, v) && !IsImageType(u.mediaType) ==> ExtractText(u) == ExtractText(v)
  {
  }

  /** When there is no text, or the text is empty, the page shows the error message and
      the model is never asked. */
  lemma FalsyTextShowsError(u: Upload, llm1: string -> Result<string, Fault>, llm2: string -> Result<string, Fault>, today: Date)
    requires ExtractText(u).Success? && !Truthy(ExtractText(u).value)
    ensures RunForm(u, llm1, today) == RunForm(u, llm2, today) == Success(ErrorMessage)
  {
  }

  /** A media type outside the four handled ones always ends in the error message. */
  lemma UnknownTypeShowsError(u: Upload, llm: string -> Result<string, Fault>, today: Date)
    requires u.mediaType != "application/pdf" && u.mediaType != "text/plain" && !IsImageType(u.mediaType)
    ensures RunForm(u, llm, today) == Success(ErrorMessage)
  {
  }

  /** With text and an answer from the model, the page shows that text. The fields shown
      are exactly the keys assigned by lines of the answer, plus "Calculated Age" when the
      scan stored an age, and every other key keeps the value the parser gave it. */
  lemma TruthyTextShowsFields(u: Upload, llm: string -> Result<string, Fault>, today: Date, k: string)
    requires ExtractText(u).Success? && Truthy(ExtractText(u).value)
    requires llm(Prompt(ExtractText(u).value.value)).Success?
    ensures var text := ExtractText(u).value.value;
      var resp := llm(Prompt(text)).value;
      var r := RunForm(u, llm, today);
      r.Success? && r.value.Display? && r.value.text == text
      && (k in KeysOf(r.value.fields) <==>
            (exists j :: Assigns(resp, j, k))
            || (k == AgeKey && exists i :: 0 <= i < |ParseFields(resp)| && Stores(ParseFields(resp)[i], AgeOn(today))))
      && (k != AgeKey ==> Get(r.value.fields, k) == Get(ParseFields(resp), k))
  {
    var resp := llm(Prompt(ExtractText(u).value.value)).value;
    var fields := ParseFields(resp);
    ParseFieldsKeys(resp, k);
    ParseFieldsUnguarded(resp);
    assert UniqueKeys(fields);
    AgeFieldScanResult(fields, AgeOn(today), k);
    if AgeKey in KeysOf(fields) {
      ParseFieldsKeys(resp, AgeKey);
    }
  }
}
