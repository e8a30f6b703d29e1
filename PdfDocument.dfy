/** A PDF document as the three extraction libraries see it, the records they
    produce, and the page-range repair every backend applies first. The
    libraries themselves are not modelled: each one is an oracle that either
    cannot open the document, or gives a list of pages whose text extraction
    yields a string, Python's `None`, or an exception. */
module PdfDocument {

  /** The three extraction libraries, listed in the selector's order of preference. */
  datatype Library = PdfPlumber | PyPdf2 | PdfMiner

  /** The `method` tag a library writes into each of its records. */
  function Tag(lib: Library): string {
    match lib
    case PdfPlumber => "pdfplumber"
    case PyPdf2 => "PyPDF2"
    case PdfMiner => "pdfminer"
  }

  /** The tag names its library: a record's provenance can be read back from it. */
  lemma TagIdentifiesLibrary(a: Library, b: Library)
    ensures Tag(a) == Tag(b) <==> a == b
  {
  }

  /** What extracting one page's text gives: a string, `None`, or an exception. */
  datatype PageText = Text(s: string) | NoText | Raises

  /** The document as one library sees it: it cannot be opened, or it is a list of pages. */
  datatype View = CannotOpen | Pages(pages: seq<PageText>)

  /** One document, seen through PyPDF2, pdfplumber and pdfminer. */
  datatype Document = Document(pypdf2: View, plumber: View, miner: View)

  function ViewOf(doc: Document, lib: Library): View {
    match lib
    case PdfPlumber => doc.plumber
    case PyPdf2 => doc.pypdf2
    case PdfMiner => doc.miner
  }

  /** The dictionary `{page, text, char_count, method}` a backend appends for one page. */
  datatype PageRecord = PageRecord(page: int, text: string, charCount: int, methodName: string)

  /** What a backend call does: returns its list of records, or raises. */
  datatype Outcome = Returned(records: seq<PageRecord>) | Raised

  function Max(a: int, b: int): int { if a >= b then a else b }

  function Min(a: int, b: int): int { if a <= b then a else b }

  /** The repair of a requested page range `[start, end]` against a document of
      `total` pages: `start = max(1, min(start, total))` and then
      `end = max(start, min(end, total))`. It never fails: the result is always
      a non-empty 1-based range, inside the document when the document has a
      page, and it keeps every bound that was already valid. An inverted
      request collapses to a single page. */
  function Clamp(start: int, end: int, total: int): (r: (int, int))
    ensures 1 <= r.0 <= r.1
    ensures total >= 1 ==> r.1 <= total
    ensures total < 1 ==> r == (1, 1)
    ensures 1 <= start <= total ==> r.0 == start
    ensures r.0 <= end <= total ==> r.1 == end
    ensures start >= end ==> r.1 == r.0
    ensures start <= 1 && end >= total >= 1 ==> r == (1, total)
  {
    var first := Max(1, Min(start, total));
    var last := Max(first, Min(end, total));
    (first, last)
  }

  /** Repairing a range that is already valid changes nothing, so clamping twice
      is clamping once. */
  lemma ClampIdempotent(start: int, end: int, total: int)
    ensures Clamp(Clamp(start, end, total).0, Clamp(start, end, total).1, total) == Clamp(start, end, total)
  {
  }
}
