/**
 * Extraction of a document's full text, its metadata, and the validity check
 * of a PDF path.
 *
 * The PDF library is not modelled: a `PdfDocument` value says what it would
 * report about a path (whether the file exists, whether it opens, each page's
 * text or that reading the page fails, its metadata entries and its size).
 */
module PdfExtraction {
  import opened Wrappers
  import opened Text
  import opened PdfCleaning

  // ---------------------------------------------------------------------------
  // Points at which the memory monitor is consulted
  // ---------------------------------------------------------------------------

  /** The numbers in `[lo, hi)` divisible by `every`, in increasing order. */
  function Multiples(lo: int, hi: int, every: int): seq<int>
    requires every > 0
    decreases hi - lo
  {
    if hi <= lo then []
    else Multiples(lo, hi - 1, every) + (if (hi - 1) % every == 0 then [hi - 1] else [])
  }

  /** `Multiples` holds exactly the multiples of `every` in `[lo, hi)`, each
      larger than the one before. */
  lemma {:induction false} MultiplesMembers(lo: int, hi: int, every: int)
    requires every > 0
    ensures forall k :: k in Multiples(lo, hi, every) <==> lo <= k < hi && k % every == 0
    ensures forall i, j :: 0 <= i < j < |Multiples(lo, hi, every)| ==>
      Multiples(lo, hi, every)[i] < Multiples(lo, hi, every)[j]
    decreases hi - lo
  {
    if lo < hi {
      MultiplesMembers(lo, hi - 1, every);
      var prev := Multiples(lo, hi - 1, every);
      forall i | 0 <= i < |prev| ensures prev[i] < hi - 1 {
        assert prev[i] in prev;
      }
    }
  }

  // ---------------------------------------------------------------------------
  // Extracting the full text (`extract_text_from_pdf`)
  // ---------------------------------------------------------------------------

  /** One page as the PDF library reports it: its text, or a failure to read it. */
  datatype Page = Readable(text: string) | Unreadable

  /** What the file system and the PDF library report about a path: whether
      the file exists, whether the library opens it, its pages, its metadata
      entries and its size in bytes. */
  datatype PdfDocument = PdfDocument(
    present: bool,
    opens: bool,
    pages: seq<Page>,
    info: map<string, string>,
    sizeBytes: nat)

  datatype PdfError = FileNotFound | ExtractionError

  predicate AllReadable(pages: seq<Page>) {
    forall i :: 0 <= i < |pages| ==> pages[i].Readable?
  }

  /** What the pages contribute, in page order: nothing for a page whose text is
      whitespace only, and its cleaned text (even when that is empty) for every
      other page. */
  function Contributions(pages: seq<Page>): seq<string> {
    if pages == [] then []
    else
      var last := pages[|pages| - 1];
      Contributions(pages[..|pages| - 1])
        + (if last.Readable? && Strip(last.text) != [] then [Cleaned(last.text)] else [])
  }

  /** Taking one more page adds that page's contribution. */
  lemma ContributionsSnoc(pages: seq<Page>, n: nat)
    requires 0 < n <= |pages|
    ensures Contributions(pages[..n]) == Contributions(pages[..n - 1])
      + (if pages[n - 1].Readable? && Strip(pages[n - 1].text) != [] then [Cleaned(pages[n - 1].text)] else [])
  {
    assert pages[..n][..n - 1] == pages[..n - 1];
  }

  /** Taking one more page keeps all pages readable when it is readable. */
  lemma AllReadableSnoc(pages: seq<Page>, n: nat)
    requires 0 < n <= |pages| && AllReadable(pages[..n - 1]) && pages[n - 1].Readable?
    ensures AllReadable(pages[..n])
  {
    forall i | 0 <= i < n ensures pages[..n][i].Readable? {
      if i < n - 1 {
        assert pages[..n][i] == pages[..n - 1][i];
      }
    }
  }

  /** What `extract_text_from_pdf` returns or raises for a document. */
  function ExtractedText(doc: PdfDocument): Result<string, PdfError> {
    if !doc.present then Failure(FileNotFound)
    else if !doc.opens || !AllReadable(doc.pages) then Failure(ExtractionError)
    else Success(JoinWith(Contributions(doc.pages), "\n\n"))
  }

  /** `extract_text_from_pdf`. The second result lists the page numbers after
      which the memory monitor was asked to reclaim: every tenth page. */
  method ExtractTextFromPdf(doc: PdfDocument) returns (r: Result<string, PdfError>, reclaimChecks: seq<int>)
    ensures r == ExtractedText(doc)
    ensures r.Success? ==> reclaimChecks == Multiples(1, |doc.pages| + 1, 10)
  {
    reclaimChecks := [];
    if !doc.present {
      return Failure(FileNotFound), reclaimChecks;
    }
    if !doc.opens {
      return Failure(ExtractionError), reclaimChecks;
    }
    var textContent: seq<string> := [];
    for pageNum := 1 to |doc.pages| + 1
      invariant AllReadable(doc.pages[..pageNum - 1])
      invariant textContent == Contributions(doc.pages[..pageNum - 1])
      invariant reclaimChecks == Multiples(1, pageNum, 10)
    {
      var page := doc.pages[pageNum - 1];
      if page.Unreadable? {
        assert !AllReadable(doc.pages);
        return Failure(ExtractionError), reclaimChecks;
      }
      AllReadableSnoc(doc.pages, pageNum);
      ContributionsSnoc(doc.pages, pageNum);
      if Strip(page.text) != [] {
        var cleaned := CleanText(page.text);
        textContent := textContent + [cleaned];
      }
      if pageNum % 10 == 0 {
        reclaimChecks := reclaimChecks + [pageNum];
      }
    }
    assert doc.pages[..|doc.pages|] == doc.pages;
    r := Success(JoinWith(textContent, "\n\n"));
  }

  lemma {:induction false} JoinKeepsNoStrippedControl(parts: seq<string>, sep: string)
    requires forall i :: 0 <= i < |parts| ==> NoStrippedControl(parts[i])
    requires NoStrippedControl(sep)
    ensures NoStrippedControl(JoinWith(parts, sep))
  {
    if |parts| > 1 {
      JoinKeepsNoStrippedControl(parts[1..], sep);
    }
  }

  lemma {:induction false} ContributionsAreClean(pages: seq<Page>)
    ensures forall i :: 0 <= i < |Contributions(pages)| ==> IsCleanLine(Contributions(pages)[i])
  {
    if pages != [] {
      var init := Contributions(pages[..|pages| - 1]);
      ContributionsAreClean(pages[..|pages| - 1]);
      var last := pages[|pages| - 1];
      if last.Readable? && Strip(last.text) != [] {
        CleanedShape(last.text);
        assert Contributions(pages) == init + [Cleaned(last.text)];
      } else {
        assert Contributions(pages) == init;
      }
    }
  }

  /** A successful extraction holds no stripped character: the page texts are
      cleaned and the "\n\n" separators are not stripped characters. */
  lemma ExtractedHasNoStrippedControl(doc: PdfDocument)
    requires ExtractedText(doc).Success?
    ensures NoStrippedControl(ExtractedText(doc).value)
  {
    var parts := Contributions(doc.pages);
    ContributionsAreClean(doc.pages);
    assert forall i :: 0 <= i < |parts| ==> NoStrippedControl(parts[i]);
    JoinKeepsNoStrippedControl(parts, "\n\n");
  }

  /** A missing file fails with FileNotFound before any page is read, whatever
      the pages hold. */
  lemma MissingFileNotFound(doc: PdfDocument)
    requires !doc.present
    ensures ExtractedText(doc) == Failure(FileNotFound)
  {
  }

  /** A one-page document whose only page is not blank but cleans to nothing
      (10 characters or fewer once cleaned) extracts to the empty text. */
  lemma ShortSinglePageGivesEmptyText(doc: PdfDocument)
    requires doc.present && doc.opens && |doc.pages| == 1 && doc.pages[0].Readable?
    requires Strip(doc.pages[0].text) != []
    requires |CollapsedLine(doc.pages[0].text)| <= 10
    ensures ExtractedText(doc) == Success([])
  {
    assert doc.pages[..0] == [];
    assert Contributions(doc.pages) == [Cleaned(doc.pages[0].text)];
  }


  // ---------------------------------------------------------------------------
  // Metadata (`get_pdf_metadata`)
  // ---------------------------------------------------------------------------

  /** The document metadata handed through to every chunk record (empty when
      the library could not read it). */
  datatype DocMetadata =
    | NoMetadata
    | DocMetadata(title: string, author: string, subject: string, pages: nat, fileSizeMB: real)

  /** One record of the chunk stream. */
  datatype ChunkRecord = ChunkRecord(chunkId: nat, text: string, metadata: DocMetadata, chunkLength: nat)

  /** A metadata entry, or `default` when the library reports none. */
  function MetadataOr(info: map<string, string>, key: string, default: string): (v: string)
    ensures key !in info ==> v == default
    ensures key in info ==> v == info[key]
  {
    if key in info then info[key] else default
  }

  /** `get_pdf_metadata`: nothing when the library cannot open the file;
      otherwise title, author and subject (with their defaults), the page count
      and the file size in MB. */
  function GetPdfMetadata(doc: PdfDocument): (md: DocMetadata)
    ensures md.NoMetadata? <==> !doc.present || !doc.opens
    ensures md.DocMetadata? ==> md.pages == |doc.pages| && md.fileSizeMB * 1048576.0 == doc.sizeBytes as real
  {
    if !doc.present || !doc.opens then NoMetadata
    else
      DocMetadata(
        MetadataOr(doc.info, "title", "Sin título"),
        MetadataOr(doc.info, "author", "Autor desconocido"),
        MetadataOr(doc.info, "subject", ""),
        |doc.pages|,
        doc.sizeBytes as real / (1024.0 * 1024.0))
  }

  // ---------------------------------------------------------------------------
  // Validation (`validate_pdf`)
  // ---------------------------------------------------------------------------

  /** `validate_pdf`: the file must exist, its suffix must read ".pdf" in any
      case, it must open, hold at least one page, and its first page must be
      readable. A blank first page is only reported, not refused; any failure of
      the library makes the answer false. */
  function ValidatePdf(path: string, doc: PdfDocument): (valid: bool)
    ensures valid <==> && doc.present && Lower(PathSuffix(path)) == ".pdf" && doc.opens
                       && |doc.pages| >= 1 && doc.pages[0].Readable?
  {
    if !doc.present then false
    else if Lower(PathSuffix(path)) != ".pdf" then false
    else if !doc.opens then false
    else if |doc.pages| == 0 then false
    else doc.pages[0].Readable?
  }

  /** A valid PDF never fails extraction with FileNotFound, and a first page
      that is blank is as valid as one with text. */
  lemma ValidPdfProperties(path: string, doc: PdfDocument, blank: string)
    requires ValidatePdf(path, doc)
    requires forall i :: 0 <= i < |blank| ==> IsSpace(blank[i])
    ensures ExtractedText(doc) != Failure(FileNotFound)
    ensures ValidatePdf(path, doc.(pages := [Readable(blank)] + doc.pages[1..]))
  {
  }
}

