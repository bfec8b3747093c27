/** Text extraction from an uploaded PDF (`extract_text_from_pdf` in
    app/db/crud/pdf_crud.py): read the text layer of at most 500 pages; when
    the stripped result is shorter than the threshold, render every page and
    run OCR instead.

    The PDF libraries and the OCR engine are foreign code. A document is
    therefore given by what they would produce: the text layer page by page,
    and the rendered page images; the OCR engine is a function parameter. */
module PdfText {
  import opened Outcomes
  import opened Text

  /** Pages the text-layer reader looks at, at most. */
  const MaxDirectPages: nat := 500

  /** The `ocr_threshold` every caller uses (the parameter's default). */
  const DefaultOcrThreshold: int := 100

  const OcrFailed := HttpError(500, "OCR extraction failed")
  const EmptyDocument := HttpError(400, "Failed to extract text from PDF. The file may be empty or not text-based.")

  /** What the text-layer reader gives: `Unreadable` when opening the file or
      counting its pages raises; otherwise one entry per page, `None` for a
      page whose extraction raises, "" for a page without text. */
  datatype TextLayer = Unreadable | Readable(pages: seq<Option<string>>)

  /** A rendered page: `channels` samples for every pixel. */
  datatype Image = Image(channels: nat, pixels: seq<seq<int>>)

  /** What the renderer gives: `OpenFault` when opening the document or
      starting the OCR reader raises; otherwise one entry per page, `None`
      for a page whose rendering raises. */
  datatype Rendering = OpenFault | Rendered(pages: seq<Option<Image>>)

  datatype Document = Document(textLayer: TextLayer, rendering: Rendering)

  /** The OCR engine: the paragraphs it recognises in an image, `None` when it
      raises. */
  type OcrEngine = Image -> Option<seq<string>>

  // ---------------------------------------------------------------------
  // The text-layer stage

  /** What one page adds to the text: nothing when its text is empty,
      otherwise the text and a newline. */
  function PageContribution(pageText: string): string {
    if pageText == "" then "" else pageText + "\n"
  }

  /** The text gathered from the first `n` pages, in order; `None` if one
      of them raises. */
  function LayerText(pages: seq<Option<string>>, n: nat): Option<string>
    requires n <= |pages|
  {
    if n == 0 then Some("")
    else
      var before := LayerText(pages, n - 1);
      if before.Some? && pages[n - 1].Some?
      then Some(before.value + PageContribution(pages[n - 1].value))
      else None
  }

  /** How many pages the reader looks at: `min(page count, 500)`. */
  function PagesRead(pages: seq<Option<string>>): (n: nat)
    ensures n <= |pages| && n <= MaxDirectPages
    ensures n == |pages| || n == MaxDirectPages
  {
    if |pages| <= MaxDirectPages then |pages| else MaxDirectPages
  }

  /** The text-layer result: a fault anywhere resets it to "". */
  function DirectText(layer: TextLayer): string {
    match layer
    case Unreadable => ""
    case Readable(pages) =>
      match LayerText(pages, PagesRead(pages))
      case None => ""
      case Some(t) => t
  }

  /** The text of the first `n` pages depends on those pages only. */
  lemma {:induction false} LayerTextPrefix(pages: seq<Option<string>>, more: seq<Option<string>>, n: nat)
    requires n <= |pages|
    ensures LayerText(pages + more, n) == LayerText(pages, n)
  {
    if n > 0 {
      LayerTextPrefix(pages, more, n - 1);
      assert (pages + more)[n - 1] == pages[n - 1];
    }
  }

  /** Pages past the 500th are never read: the direct text is that of the
      first 500 pages alone. */
  lemma DirectTextIgnoresLaterPages(pages: seq<Option<string>>, more: seq<Option<string>>)
    requires |pages| >= MaxDirectPages
    ensures DirectText(Readable(pages + more)) == DirectText(Readable(pages))
  {
    LayerTextPrefix(pages, more, MaxDirectPages);
  }

  /** Once a page raises, the text of every longer prefix is a fault. */
  lemma {:induction false} LayerTextFault(pages: seq<Option<string>>, i: nat, n: nat)
    requires i < n <= |pages| && pages[i].None?
    ensures LayerText(pages, n).None?
  {
    if n - 1 > i {
      LayerTextFault(pages, i, n - 1);
    }
  }

  /** A page that raises, among the pages read, empties the direct text
      whatever the other pages hold. */
  lemma FaultEmptiesDirectText(pages: seq<Option<string>>, i: nat)
    requires i < |pages| && i < MaxDirectPages && pages[i].None?
    ensures DirectText(Readable(pages)) == ""
  {
    LayerTextFault(pages, i, PagesRead(pages));
  }

  /** Without faults, the direct text is made of the non-empty page texts,
      each followed by a newline, in page order: page `i` contributes its
      text at the position given by the pages before it. */
  lemma {:induction false} LayerTextPages(pages: seq<Option<string>>, n: nat, i: nat)
    requires i < n <= |pages| && LayerText(pages, n).Some?
    ensures LayerText(pages, i).Some? && pages[i].Some?
    ensures LayerText(pages, i + 1).value == LayerText(pages, i).value + PageContribution(pages[i].value)
    ensures LayerText(pages, i + 1).value <= LayerText(pages, n).value
  {
    if n - 1 > i {
      LayerTextPages(pages, n - 1, i);
    }
  }

  // ---------------------------------------------------------------------
  // The OCR stage

  /** The image's shape is consistent (numpy's `reshape` succeeds). */
  predicate Shaped(img: Image) {
    forall p :: p in img.pixels ==> |p| == img.channels
  }

  /** An image with 4 or more channels keeps only its first 3; others are
      passed as they are. */
  function DropAlpha(img: Image): (r: Image)
    requires Shaped(img)
    ensures Shaped(r)
    ensures r.channels == if img.channels >= 4 then 3 else img.channels
    ensures |r.pixels| == |img.pixels|
    ensures forall i :: 0 <= i < |r.pixels| ==> r.pixels[i] == img.pixels[i][..r.channels]
  {
    if img.channels >= 4 then
      Image(3, seq(|img.pixels|, i requires 0 <= i < |img.pixels| => img.pixels[i][..3]))
    else img
  }

  /** The OCR text of one rendered page: its paragraphs joined by spaces,
      then a newline; `None` if rendering, reshaping or recognition raises. */
  function PageOcrText(page: Option<Image>, engine: OcrEngine): Option<string> {
    match page
    case None => None
    case Some(img) =>
      if !Shaped(img) then None
      else match engine(DropAlpha(img))
        case None => None
        case Some(paragraphs) => Some(Join(paragraphs, " ") + "\n")
  }

  /** The OCR text of the first `n` rendered pages, in order; `None` if a
      page raises. */
  function OcrText(pages: seq<Option<Image>>, n: nat, engine: OcrEngine): Option<string>
    requires n <= |pages|
  {
    if n == 0 then Some("")
    else
      var before := OcrText(pages, n - 1, engine);
      var page := PageOcrText(pages[n - 1], engine);
      if before.Some? && page.Some? then Some(before.value + page.value) else None
  }

  /** Once a page raises, OCR of every longer prefix is a fault. */
  lemma {:induction false} OcrTextFault(pages: seq<Option<Image>>, i: nat, n: nat, engine: OcrEngine)
    requires i < n <= |pages| && PageOcrText(pages[i], engine).None?
    ensures OcrText(pages, n, engine).None?
  {
    if n - 1 > i {
      OcrTextFault(pages, i, n - 1, engine);
    }
  }

  /** There is no page cap on OCR: the page after any prefix still
      contributes its text. */
  lemma OcrReadsEveryPage(pages: seq<Option<Image>>, page: Option<Image>, engine: OcrEngine)
    ensures OcrText(pages + [page], |pages| + 1, engine) ==
              if OcrText(pages, |pages|, engine).Some? && PageOcrText(page, engine).Some?
              then Some(OcrText(pages, |pages|, engine).value + PageOcrText(page, engine).value)
              else None
  {
    OcrTextPrefix(pages, [page], |pages|, engine);
    assert (pages + [page])[|pages|] == page;
  }

  lemma {:induction false} OcrTextPrefix(pages: seq<Option<Image>>, more: seq<Option<Image>>, n: nat, engine: OcrEngine)
    requires n <= |pages|
    ensures OcrText(pages + more, n, engine) == OcrText(pages, n, engine)
  {
    if n > 0 {
      OcrTextPrefix(pages, more, n - 1, engine);
      assert (pages + more)[n - 1] == pages[n - 1];
    }
  }

  /** The outcome of the OCR branch. */
  function OcrOutcome(rendering: Rendering, engine: OcrEngine): Result<string, HttpError> {
    match rendering
    case OpenFault => Failure(OcrFailed)
    case Rendered(pages) =>
      match OcrText(pages, |pages|, engine)
      case None => Failure(OcrFailed)
      case Some(t) => Success(Strip(t))
  }

  // ---------------------------------------------------------------------
  // The whole extraction

  /** The outcome of `extract_text_from_pdf(path, threshold)`. */
  function Extract(doc: Document, engine: OcrEngine, threshold: int): Result<string, HttpError> {
    var direct := Strip(DirectText(doc.textLayer));
    if |direct| < threshold then OcrOutcome(doc.rendering, engine)
    else if direct == "" then Failure(EmptyDocument)
    else Success(direct)
  }

  /** The text-layer loop of `extract_text_from_pdf`: append each non-empty
      page text and a newline, for at most 500 pages; a page that raises
      resets the text to "". */
  method ReadTextLayer(layer: TextLayer) returns (text: string)
    ensures text == DirectText(layer)
  {
    text := "";
    match layer {
      case Unreadable =>
        text := "";
      case Readable(pages) =>
        var maxPages := PagesRead(pages);
        var i := 0;
        while i < maxPages
          invariant 0 <= i <= maxPages
          invariant LayerText(pages, i) == Some(text)
        {
          match pages[i] {
            case None =>
              FaultEmptiesDirectText(pages, i);
              text := "";
              return;
            case Some(pageText) =>
              text := text + PageContribution(pageText);
          }
          i := i + 1;
        }
    }
  }

  /** The OCR loop of `extract_text_from_pdf`: for every rendered page, drop
      the alpha channel, recognise paragraphs, append them joined by spaces
      and a newline; return the stripped text, or fail with 500 at the first
      fault. */
  method RunOcr(rendering: Rendering, engine: OcrEngine) returns (r: Result<string, HttpError>)
    ensures r == OcrOutcome(rendering, engine)
  {
    match rendering {
      case OpenFault =>
        return Failure(OcrFailed);
      case Rendered(pages) =>
        var ocrText := "";
        var i := 0;
        while i < |pages|
          invariant 0 <= i <= |pages|
          invariant OcrText(pages, i, engine) == Some(ocrText)
        {
          var pageText := PageOcrText(pages[i], engine);
          if pageText.None? {
            OcrTextFault(pages, i, |pages|, engine);
            return Failure(OcrFailed);
          }
          ocrText := ocrText + pageText.value;
          i := i + 1;
        }
        return Success(Strip(ocrText));
    }
  }

  /** `extract_text_from_pdf(path, threshold)`: the text layer first; OCR
      when its stripped text is shorter than `threshold`; otherwise the
      stripped text, or 400 when it is empty. */
  method ExtractTextFromPdf(doc: Document, engine: OcrEngine, threshold: int)
    returns (r: Result<string, HttpError>)
    ensures r == Extract(doc, engine, threshold)
  {
    var text := ReadTextLayer(doc.textLayer);
    if |Strip(text)| < threshold {
      r := RunOcr(doc.rendering, engine);
      return;
    }
    if Strip(text) == "" {
      return Failure(EmptyDocument);
    }
    return Success(Strip(text));
  }

  // ---------------------------------------------------------------------
  // Properties of the extraction

  /** OCR is not used when the stripped direct text reaches the threshold:
      the outcome is that text, at least `threshold` long, whatever the
      renderer and the OCR engine would do. */
  lemma DirectTextSuffices(layer: TextLayer, rendering: Rendering, engine: OcrEngine,
                           otherRendering: Rendering, otherEngine: OcrEngine, threshold: int)
    requires threshold > 0 && |Strip(DirectText(layer))| >= threshold
    ensures Extract(Document(layer, rendering), engine, threshold) == Success(Strip(DirectText(layer)))
    ensures |Strip(DirectText(layer))| >= threshold
    ensures Extract(Document(layer, rendering), engine, threshold) ==
            Extract(Document(layer, otherRendering), otherEngine, threshold)
  {
  }

  /** OCR is used exactly when the stripped direct text is shorter than the
      threshold: the outcome is then the OCR outcome, returned even when it
      is empty, and the direct text no longer matters. */
  lemma OcrWhenShort(layer: TextLayer, otherLayer: TextLayer, rendering: Rendering,
                     engine: OcrEngine, threshold: int)
    requires |Strip(DirectText(layer))| < threshold
    requires |Strip(DirectText(otherLayer))| < threshold
    ensures Extract(Document(layer, rendering), engine, threshold) == OcrOutcome(rendering, engine)
    ensures Extract(Document(layer, rendering), engine, threshold) ==
            Extract(Document(otherLayer, rendering), engine, threshold)
  {
  }

  /** The OCR result may be empty and is still a success: a document whose
      text layer and OCR text are both blank extracts to "". */
  lemma {:induction false} BlankOcrIsSuccess(layer: TextLayer, pages: seq<Option<Image>>, engine: OcrEngine, threshold: int)
    requires threshold > 0 && Strip(DirectText(layer)) == ""
    requires OcrText(pages, |pages|, engine).Some? && IsBlank(OcrText(pages, |pages|, engine).value)
    ensures Extract(Document(layer, Rendered(pages)), engine, threshold) == Success("")
  {
    var t := OcrText(pages, |pages|, engine).value;
    StripBlank(t);
    assert OcrOutcome(Rendered(pages), engine) == Success(Strip(t));
  }

  /** The "empty document" error can only come from the text-layer branch,
      and only when the threshold is not positive; with the threshold every
      caller uses, it never happens. */
  lemma EmptyErrorNeedsNonPositiveThreshold(doc: Document, engine: OcrEngine, threshold: int)
    ensures Extract(doc, engine, threshold) == Failure(EmptyDocument) ==>
              threshold <= 0 && |Strip(DirectText(doc.textLayer))| >= threshold
    ensures Extract(doc, engine, DefaultOcrThreshold) != Failure(EmptyDocument)
  {
  }

  /** Every successful extraction is already stripped. */
  lemma {:induction false} ExtractedTextIsStripped(doc: Document, engine: OcrEngine, threshold: int)
    requires Extract(doc, engine, threshold).Success?
    ensures IsTrimmed(Extract(doc, engine, threshold).value)
    ensures Strip(Extract(doc, engine, threshold).value) == Extract(doc, engine, threshold).value
  {
    var direct := DirectText(doc.textLayer);
    if |Strip(direct)| < threshold {
      var t := OcrText(doc.rendering.pages, |doc.rendering.pages|, engine).value;
      StripIdempotent(t);
    } else {
      StripIdempotent(direct);
    }
  }
}
