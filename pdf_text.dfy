/**
 * `PDFProcessor.extract_text`: which pages' text is kept, when OCR is used,
 * and when extraction fails. The PDF readers and the OCR engine are
 * replaced by what they produce for each page.
 */
module PdfText {
  import opened Wrappers
  import opened Text

  /** What PyPDF2 yields for one page: its text, no text (`None` or `""`), or an exception. */
  datatype EmbeddedPage = Embedded(text: string) | NoText | ReadCrash

  /** What the OCR path yields for one page: Tesseract's text, or an exception. */
  datatype OcrPage = Recognised(text: string) | OcrCrash

  /** Why `extract_text` raised. */
  datatype PdfError =
    | NotFound  // FileNotFoundError: the path does not exist
    | OcrFailed // an exception in the pdf2image path, which has no handler
    | NoText    // ValueError: the text is still blank

  /** `bool(s) and bool(s.strip())`: some character is not whitespace. */
  predicate HasInk(s: string) {
    !AllSpace(s)
  }

  /** `HasInk` is the truth of `s.strip()`. */
  lemma HasInkIsStripped(s: string)
    ensures HasInk(s) <==> Strip(s) != []
  {
    StripEmptyIffBlank(s);
  }

  /** A concatenation is blank exactly when both parts are. */
  lemma BlankAppend(a: string, b: string)
    ensures AllSpace(a + b) <==> AllSpace(a) && AllSpace(b)
  {
    if AllSpace(a + b) {
      assert forall k :: 0 <= k < |a| ==> a[k] == (a + b)[k];
      assert forall k :: 0 <= k < |b| ==> b[k] == (a + b)[|a| + k];
    }
  }

  /**
   * The embedded text: every page with ink, followed by a newline, up to the
   * first page whose reading raises (the handler ends the whole loop).
   */
  function EmbeddedText(pages: seq<EmbeddedPage>): string
    decreases |pages|
  {
    if pages == [] then []
    else match pages[0]
      case ReadCrash => []
      case NoText => EmbeddedText(pages[1..])
      case Embedded(t) => (if HasInk(t) then t + "\n" else []) + EmbeddedText(pages[1..])
  }

  /** The OCR text of the PyMuPDF path: every page and a newline, up to the first exception. */
  function RecognisedText(pages: seq<OcrPage>): string
    decreases |pages|
  {
    if pages == [] then []
    else match pages[0]
      case OcrCrash => []
      case Recognised(t) => t + "\n" + RecognisedText(pages[1..])
  }

  predicate NoCrash(pages: seq<OcrPage>) {
    forall k :: 0 <= k < |pages| ==> pages[k].Recognised?
  }

  /** The pages before the first `ReadCrash`. */
  function ReadPages(pages: seq<EmbeddedPage>): (r: seq<EmbeddedPage>)
    ensures |r| <= |pages| && r == pages[..|r|]
    ensures forall k :: 0 <= k < |r| ==> !r[k].ReadCrash?
    ensures |r| < |pages| ==> pages[|r|].ReadCrash?
    decreases |pages|
  {
    if pages == [] || pages[0].ReadCrash? then [] else [pages[0]] + ReadPages(pages[1..])
  }

  /** `extract_text`: the embedded text if it has ink, else the OCR text, else an error. */
  function Extracted(found: bool, embedded: seq<EmbeddedPage>, pymupdf: bool, ocr: seq<OcrPage>): Result<string, PdfError> {
    if !found then Failure(NotFound)
    else
      var text := EmbeddedText(embedded);
      if HasInk(text) then Success(text)
      else if !pymupdf && !NoCrash(ocr) then Failure(OcrFailed)
      else
        var text' := text + RecognisedText(ocr);
        if HasInk(text') then Success(text') else Failure(PdfError.NoText)
  }

  /**
   * `extract_text(pdf_path)`. `found` says whether the path exists,
   * `embedded` is what PyPDF2 reads page by page, `pymupdf` whether PyMuPDF
   * is installed and `ocr` what the OCR engine recognises page by page.
   */
  method ExtractText(found: bool, embedded: seq<EmbeddedPage>, pymupdf: bool, ocr: seq<OcrPage>)
    returns (r: Result<string, PdfError>)
    ensures r == Extracted(found, embedded, pymupdf, ocr)
  {
    if !found {
      return Failure(NotFound);
    }
    var text := "";
    var i := 0;
    while i < |embedded| && !embedded[i].ReadCrash?
      invariant i <= |embedded|
      invariant text + EmbeddedText(embedded[i..]) == EmbeddedText(embedded)
    {
      EmbeddedStep(embedded, i);
      if embedded[i].Embedded? && HasInk(embedded[i].text) {
        text := text + embedded[i].text + "\n";
      }
      i := i + 1;
    }
    assert EmbeddedText(embedded[i..]) == [];
    assert text == text + EmbeddedText(embedded[i..]) == EmbeddedText(embedded);
    if !HasInk(text) {
      var recognised := OcrPass(pymupdf, ocr);
      if recognised.Failure? {
        return Failure(recognised.error);
      }
      text := text + recognised.value;
      if !HasInk(text) {
        return Failure(PdfError.NoText);
      }
    }
    return Success(text);
  }

  /**
   * The OCR loop: with PyMuPDF an exception ends the loop and keeps what was
   * recognised; in the pdf2image path it propagates.
   */
  method OcrPass(pymupdf: bool, ocr: seq<OcrPage>) returns (r: Result<string, PdfError>)
    ensures r.Failure? <==> !pymupdf && !NoCrash(ocr)
    ensures r.Failure? ==> r.error == OcrFailed
    ensures r.Success? ==> r.value == RecognisedText(ocr)
  {
    if !pymupdf && !NoCrash(ocr) {
      return Failure(OcrFailed);
    }
    var text := "";
    var i := 0;
    while i < |ocr| && ocr[i].Recognised?
      invariant i <= |ocr|
      invariant text + RecognisedText(ocr[i..]) == RecognisedText(ocr)
    {
      RecognisedStep(ocr, i);
      text := text + ocr[i].text + "\n";
      i := i + 1;
    }
    return Success(text);
  }

  lemma EmbeddedStep(pages: seq<EmbeddedPage>, i: nat)
    requires i < |pages| && !pages[i].ReadCrash?
    ensures EmbeddedText(pages[i..])
      == (if pages[i].Embedded? && HasInk(pages[i].text) then pages[i].text + "\n" else []) + EmbeddedText(pages[i + 1..])
  {
    assert pages[i..][1..] == pages[i + 1..];
  }

  lemma RecognisedStep(pages: seq<OcrPage>, i: nat)
    requires i < |pages| && pages[i].Recognised?
    ensures RecognisedText(pages[i..]) == pages[i].text + "\n" + RecognisedText(pages[i + 1..])
  {
    assert pages[i..][1..] == pages[i + 1..];
  }

  /** A page whose embedded text has ink. */
  predicate Inked(p: EmbeddedPage) {
    p.Embedded? && HasInk(p.text)
  }

  /** No page of `read` has ink. */
  predicate NoInk(read: seq<EmbeddedPage>) {
    forall k :: 0 <= k < |read| ==> !Inked(read[k])
  }

  lemma NoInkCons(p: EmbeddedPage, rest: seq<EmbeddedPage>)
    ensures NoInk([p] + rest) <==> !Inked(p) && NoInk(rest)
  {
    if !Inked(p) && NoInk(rest) {
      forall k | 0 <= k < |[p] + rest|
        ensures !Inked(([p] + rest)[k])
      {
        if k > 0 {
          assert ([p] + rest)[k] == rest[k - 1];
        }
      }
    }
    if NoInk([p] + rest) {
      assert ([p] + rest)[0] == p;
      forall k | 0 <= k < |rest|
        ensures !Inked(rest[k])
      {
        assert ([p] + rest)[k + 1] == rest[k];
      }
    }
  }

  /**
   * The embedded text is blank exactly when no page read before the first
   * exception has ink; OCR runs in exactly that case.
   */
  lemma {:induction false} EmbeddedBlankIff(pages: seq<EmbeddedPage>)
    ensures !HasInk(EmbeddedText(pages)) <==> NoInk(ReadPages(pages))
    decreases |pages|
  {
    if pages != [] && !pages[0].ReadCrash? {
      var head := if Inked(pages[0]) then pages[0].text + "\n" else [];
      var rest := pages[1..];
      assert EmbeddedText(pages) == head + EmbeddedText(rest);
      assert ReadPages(pages) == [pages[0]] + ReadPages(rest);
      EmbeddedBlankIff(rest);
      NoInkCons(pages[0], ReadPages(rest));
      BlankAppend(head, EmbeddedText(rest));
      if Inked(pages[0]) {
        BlankAppend(pages[0].text, "\n");
      }
    }
  }

  /** A successful extraction is never blank, and the OCR text is used only when the embedded text is. */
  lemma ExtractedProperties(found: bool, embedded: seq<EmbeddedPage>, pymupdf: bool, ocr: seq<OcrPage>)
    ensures var r := Extracted(found, embedded, pymupdf, ocr);
      && (r == Failure(NotFound) <==> !found)
      && (r.Success? ==> HasInk(r.value))
      && (found && HasInk(EmbeddedText(embedded)) ==> r == Success(EmbeddedText(embedded)))
      && (r.Success? && !HasInk(EmbeddedText(embedded)) ==> r.value == EmbeddedText(embedded) + RecognisedText(ocr))
  {
  }
}
