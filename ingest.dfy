/**
 The PDF ingestion pipeline (`ingest_pdf`): one Document record per upload, then one Page
 record per PDF page, in page order, with native text when the page has a text layer and OCR
 text when it does not. The PDF reader, the OCR engine and the database are not part of this
 model: a PDF is the sequence of what the reader and the OCR engine would return for each page,
 and the Document's identifier is the one the database assigned on commit.
 */
module Ingest {
  import opened Text

  /** Stored instead of an empty string when neither the text layer nor OCR gave any text. */
  const Placeholder: string := "[No text extracted]"

  /** What the PDF reader returns for one page (`get_text()`) and what OCR returns for it. */
  datatype PdfPage = PdfPage(native: string, ocr: string)

  /** The Document row; its upload timestamp is a clock value and is not modelled. */
  datatype Document = Document(id: int, ownerId: int, docLabel: string, filePath: string)

  /** The Page row; its creation timestamp is a clock value and is not modelled. */
  datatype Page = Page(documentId: int, pageNumber: int, text: string, isScanned: bool)

  /**
   `path.split("/")[-1]`: the part of the path after its last `/`, or the whole path when it
   has none. It is a suffix of the path, holds no `/`, and is either the whole path or preceded
   by a `/`.
   */
  function Label(path: string): (r: string)
    ensures '/' !in r
    ensures |r| <= |path| && r == path[|path| - |r|..]
    ensures |r| < |path| ==> path[|path| - |r| - 1] == '/'
    ensures '/' !in path ==> r == path
  {
    if path == [] then []
    else if path[|path| - 1] == '/' then []
    else Label(path[..|path| - 1]) + [path[|path| - 1]]
  }

  /** Whatever comes before the last slash, the label is what follows it. */
  lemma {:induction false} LabelAfterLastSlash(dir: string, name: string)
    requires '/' !in name
    ensures Label(dir + "/" + name) == name
  {
    if name != [] {
      var front := name[..|name| - 1];
      assert (dir + "/" + name)[..|dir + "/" + name| - 1] == dir + "/" + front;
      LabelAfterLastSlash(dir, front);
    }
  }

  /** The Page record built for the page at index `i`: numbered `i + 1`, never with empty text. */
  function PageAt(docId: int, i: nat, p: PdfPage): (r: Page)
    ensures r.documentId == docId && r.pageNumber == i + 1
    ensures r.text != ""
  {
    var raw := Strip(p.native);
    var scanned := raw == "";
    var text := if scanned then p.ocr else raw;
    Page(docId, i + 1, if text == "" then Placeholder else text, scanned)
  }

  /**
   A page is scanned exactly when its native text is whitespace only. A native page holds its
   stripped native text; a scanned page holds the OCR text, or the placeholder when OCR gave
   the empty string.
   */
  lemma PageAtClassifies(docId: int, i: nat, p: PdfPage)
    ensures PageAt(docId, i, p).isScanned <==> AllSpace(p.native)
    ensures !PageAt(docId, i, p).isScanned ==> PageAt(docId, i, p).text == Strip(p.native)
    ensures PageAt(docId, i, p).isScanned && p.ocr != "" ==> PageAt(docId, i, p).text == p.ocr
    ensures PageAt(docId, i, p).isScanned && p.ocr == "" ==> PageAt(docId, i, p).text == Placeholder
  {
    StripEmpty(p.native);
  }

  /** The pages `ingest_pdf` stores for `pdf` under the Document `docId`, built page by page. */
  function Pages(docId: int, pdf: seq<PdfPage>): (r: seq<Page>)
    ensures |r| == |pdf|
  {
    if pdf == [] then []
    else Pages(docId, pdf[..|pdf| - 1]) + [PageAt(docId, |pdf| - 1, pdf[|pdf| - 1])]
  }

  /** Stored page `k` is the page built from PDF page `k` at index `k`. */
  lemma {:induction false} PagesAt(docId: int, pdf: seq<PdfPage>, k: nat)
    requires k < |pdf|
    ensures Pages(docId, pdf)[k] == PageAt(docId, k, pdf[k])
  {
    if k < |pdf| - 1 {
      var front := pdf[..|pdf| - 1];
      PagesAt(docId, front, k);
    }
  }

  /** Taking one more PDF page adds exactly its page at the end. */
  lemma PagesSnoc(docId: int, pdf: seq<PdfPage>, i: nat)
    requires i < |pdf|
    ensures Pages(docId, pdf[..i + 1]) == Pages(docId, pdf[..i]) + [PageAt(docId, i, pdf[i])]
  {
    assert pdf[..i + 1][..i] == pdf[..i];
  }

  /**
   One stored page per PDF page, in order: page `k` belongs to the Document, is numbered `k + 1`,
   has non-empty text, and is scanned exactly when the native text of PDF page `k` is whitespace
   only.
   */
  lemma PagesInOrder(docId: int, pdf: seq<PdfPage>)
    ensures |Pages(docId, pdf)| == |pdf|
    ensures forall k :: 0 <= k < |pdf| ==>
      && Pages(docId, pdf)[k].documentId == docId
      && Pages(docId, pdf)[k].pageNumber == k + 1
      && Pages(docId, pdf)[k].text != ""
      && (Pages(docId, pdf)[k].isScanned <==> AllSpace(pdf[k].native))
  {
    forall k | 0 <= k < |pdf|
      ensures Pages(docId, pdf)[k] == PageAt(docId, k, pdf[k])
      ensures PageAt(docId, k, pdf[k]).isScanned <==> AllSpace(pdf[k].native)
    {
      PagesAt(docId, pdf, k);
      PageAtClassifies(docId, k, pdf[k]);
    }
  }

  /**
   The body of the page loop of `ingest_pdf`: strip the native text, fall back to OCR when
   nothing is left, and store the placeholder when the text is still empty.
   */
  method BuildPage(docId: int, i: nat, p: PdfPage) returns (page: Page)
    ensures page == PageAt(docId, i, p)
    ensures page.isScanned <==> AllSpace(p.native)
  {
    var rawText := Strip(p.native);
    var isScanned := rawText == "";
    if isScanned {
      rawText := p.ocr;
    }
    page := Page(docId, i + 1, if rawText == "" then Placeholder else rawText, isScanned);
    StripEmpty(p.native);
  }

  /**
   `ingest_pdf(path, owner_id)`: the Document built for the upload and the Page records added to
   the session, one per PDF page, in a loop over the pages.
   */
  method IngestPdf(path: string, ownerId: int, docId: int, pdf: seq<PdfPage>)
    returns (doc: Document, pages: seq<Page>)
    ensures doc == Document(docId, ownerId, Label(path), path)
    ensures pages == Pages(docId, pdf)
    ensures |pages| == |pdf|
    ensures forall k :: 0 <= k < |pages| ==>
      pages[k].documentId == doc.id && pages[k].pageNumber == k + 1 && pages[k].text != ""
    ensures forall k :: 0 <= k < |pages| ==> (pages[k].isScanned <==> AllSpace(pdf[k].native))
  {
    doc := Document(docId, ownerId, Label(path), path);
    pages := [];
    var i := 0;
    while i < |pdf|
      invariant 0 <= i <= |pdf|
      invariant pages == Pages(docId, pdf[..i])
    {
      var page := BuildPage(doc.id, i, pdf[i]);
      PagesSnoc(docId, pdf, i);
      pages := pages + [page];
      i := i + 1;
    }
    assert pdf[..i] == pdf;
    PagesInOrder(docId, pdf);
  }

  /** The page numbers that occur among `pages`. */
  function PageNumberSet(pages: seq<Page>): set<int>
  {
    set p | p in pages :: p.pageNumber
  }

  /** A PDF of N pages yields the page numbers 1..N, each exactly once, in order. */
  lemma PageNumbers(docId: int, pdf: seq<PdfPage>)
    ensures |Pages(docId, pdf)| == |pdf|
    ensures forall k :: 0 <= k < |pdf| ==> Pages(docId, pdf)[k].pageNumber == k + 1
    ensures forall n :: n in PageNumberSet(Pages(docId, pdf)) <==> 1 <= n <= |pdf|
  {
    var pages := Pages(docId, pdf);
    forall n | 1 <= n <= |pdf| ensures n in PageNumberSet(pages) {
      var p := pages[n - 1];
      assert p.pageNumber == n;
      assert p in pages;
    }
  }

  /** Every stored page belongs to the Document created by the same call. */
  lemma PagesBelongToDocument(docId: int, pdf: seq<PdfPage>)
    ensures forall p :: p in Pages(docId, pdf) ==> p.documentId == docId && p.text != ""
  {
  }

  /** OCR is consulted only for scanned pages: on a native page its output makes no difference. */
  lemma OcrIgnoredOnNativePages(docId: int, i: nat, p: PdfPage, otherOcr: string)
    requires !AllSpace(p.native)
    ensures PageAt(docId, i, p) == PageAt(docId, i, p.(ocr := otherOcr))
  {
    StripEmpty(p.native);
  }

  /**
   On a native page the placeholder fallback never applies: the stored text is the non-empty
   stripped native text.
   */
  lemma NativePageText(docId: int, i: nat, p: PdfPage)
    requires !AllSpace(p.native)
    ensures !PageAt(docId, i, p).isScanned
    ensures PageAt(docId, i, p).text == Strip(p.native) != ""
    ensures !IsSpace(PageAt(docId, i, p).text[0])
  {
    StripEmpty(p.native);
  }

  /**
   A two-page PDF whose first page has the native text "Hello world" and whose second page is
   blank both natively and to OCR.
   */
  lemma MixedPdf(docId: int)
    ensures Pages(docId, [PdfPage("Hello world", "ignored"), PdfPage(" \n", "")])
         == [Page(docId, 1, "Hello world", false), Page(docId, 2, Placeholder, true)]
  {
    var hello, blank := "Hello world", " \n";
    StripUnpadded(hello);
    StripEmpty(blank);
    assert AllSpace(blank) by { assert blank[0] == ' ' && blank[1] == '\n'; }
  }

}
