/**
 The folder loader (`extract_text_from_pdfs`): the text of every PDF in a folder, files in
 listing order and pages in page order, run together with no separator. The directory listing
 and the PDF reader are not part of this model: a folder is the sequence of its entries in the
 order the listing returned them, each with the page texts the reader would return for it.
 */
module LoadPdf {
  import opened Text

  /** One directory entry: its file name and the texts of its pages in page order. */
  datatype DirEntry = DirEntry(name: string, pages: seq<string>)

  /** `name.lower().endswith(".pdf")`. */
  predicate IsPdfName(name: string)
  {
    EndsWith(Lower(name), ".pdf")
  }

  /** The name filter, spelled out: the last four characters are `.`, `p`, `d`, `f` in either case. */
  lemma IsPdfNameCases(name: string)
    ensures IsPdfName(name) <==>
      && |name| >= 4
      && name[|name| - 4] == '.'
      && name[|name| - 3] in "pP"
      && name[|name| - 2] in "dD"
      && name[|name| - 1] in "fF"
  {
  }

  /** Upper-case extensions qualify; a name that only contains ".pdf" earlier does not. */
  lemma IsPdfNameExamples()
    ensures IsPdfName("A.PDF")
    ensures !IsPdfName("a.pdf.txt")
    ensures !IsPdfName("pdf")
  {
    IsPdfNameCases("A.PDF");
    IsPdfNameCases("a.pdf.txt");
  }

  /** What one entry adds to the result: the joined page texts of a PDF, nothing otherwise. */
  function Contribution(e: DirEntry): string
  {
    if IsPdfName(e.name) then Join(e.pages) else ""
  }

  /** The loader's result for a listing, entry by entry. */
  function FolderText(listing: seq<DirEntry>): string
  {
    if listing == [] then ""
    else FolderText(listing[..|listing| - 1]) + Contribution(listing[|listing| - 1])
  }

  /** The page texts that reach the result: those of the PDF entries, in order. */
  function PdfPageTexts(listing: seq<DirEntry>): seq<string>
  {
    if listing == [] then []
    else
      var last := listing[|listing| - 1];
      PdfPageTexts(listing[..|listing| - 1]) + (if IsPdfName(last.name) then last.pages else [])
  }

  /**
   The entries whose names pass the filter, in listing order: an entry of the listing is kept
   exactly when its name passes.
   */
  function PdfEntries(listing: seq<DirEntry>): (r: seq<DirEntry>)
    ensures |r| <= |listing|
    ensures forall e :: e in r ==> e in listing && IsPdfName(e.name)
    ensures forall e :: e in listing && IsPdfName(e.name) ==> e in r
  {
    if listing == [] then []
    else
      var last := listing[|listing| - 1];
      PdfEntries(listing[..|listing| - 1]) + (if IsPdfName(last.name) then [last] else [])
  }

  /**
   Filtering a listing split in two is filtering each part and putting the results one after
   the other, so the kept entries keep their listing order.
   */
  lemma {:induction false} PdfEntriesAppend(a: seq<DirEntry>, b: seq<DirEntry>)
    ensures PdfEntries(a + b) == PdfEntries(a) + PdfEntries(b)
  {
    if b == [] {
      assert a + b == a;
    } else {
      var b' := b[..|b| - 1];
      assert (a + b)[..|a + b| - 1] == a + b';
      PdfEntriesAppend(a, b');
    }
  }

  /** The result is the page texts of the PDF entries joined with no separator. */
  lemma {:induction false} FolderTextIsJoin(listing: seq<DirEntry>)
    ensures FolderText(listing) == Join(PdfPageTexts(listing))
  {
    if listing != [] {
      var front, last := listing[..|listing| - 1], listing[|listing| - 1];
      FolderTextIsJoin(front);
      if IsPdfName(last.name) {
        JoinAppend(PdfPageTexts(front), last.pages);
      } else {
        assert PdfPageTexts(listing) == PdfPageTexts(front) + [];
        assert PdfPageTexts(front) + [] == PdfPageTexts(front);
        assert FolderText(listing) == FolderText(front) + "";
      }
    }
  }

  /** The result is exactly as long as all the contributed page texts together. */
  lemma FolderTextLength(listing: seq<DirEntry>)
    ensures |FolderText(listing)| == SumLengths(PdfPageTexts(listing))
  {
    FolderTextIsJoin(listing);
    JoinLength(PdfPageTexts(listing));
  }

  /** Dropping the entries that fail the filter does not change the result. */
  lemma {:induction false} OnlyPdfsContribute(listing: seq<DirEntry>)
    ensures FolderText(PdfEntries(listing)) == FolderText(listing)
  {
    if listing != [] {
      var front, last := listing[..|listing| - 1], listing[|listing| - 1];
      OnlyPdfsContribute(front);
      if IsPdfName(last.name) {
        var r := PdfEntries(front) + [last];
        assert PdfEntries(listing) == r;
        assert r[..|r| - 1] == PdfEntries(front);
        assert FolderText(r) == FolderText(PdfEntries(front)) + Contribution(last);
      } else {
        assert PdfEntries(listing) == PdfEntries(front);
        assert Contribution(last) == "";
      }
    }
  }

  /** A listing with no PDF in it gives the empty string. */
  lemma {:induction false} NoPdfNoText(listing: seq<DirEntry>)
    requires forall k :: 0 <= k < |listing| ==> !IsPdfName(listing[k].name)
    ensures FolderText(listing) == ""
  {
    if listing != [] {
      NoPdfNoText(listing[..|listing| - 1]);
    }
  }

  /**
   `extract_text_from_pdfs`: for each entry of the listing whose name passes the filter, append
   the text of each of its pages to the accumulator.
   */
  method ExtractTextFromPdfs(listing: seq<DirEntry>) returns (allText: string)
    ensures allText == FolderText(listing)
    ensures allText == Join(PdfPageTexts(listing))
    ensures |allText| == SumLengths(PdfPageTexts(listing))
  {
    allText := "";
    var i := 0;
    while i < |listing|
      invariant 0 <= i <= |listing|
      invariant allText == FolderText(listing[..i])
    {
      var entry := listing[i];
      if IsPdfName(entry.name) {
        var j := 0;
        while j < |entry.pages|
          invariant 0 <= j <= |entry.pages|
          invariant allText == FolderText(listing[..i]) + Join(entry.pages[..j])
        {
          assert entry.pages[..j + 1][..j] == entry.pages[..j];
          allText := allText + entry.pages[j];
          j := j + 1;
        }
        assert entry.pages[..j] == entry.pages;
      }
      assert listing[..i + 1][..i] == listing[..i];
      i := i + 1;
    }
    assert listing[..i] == listing;
    FolderTextIsJoin(listing);
    FolderTextLength(listing);
  }

}
