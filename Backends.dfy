/** The three extraction backends of `PDFReader`: `extract_text_pypdf2`,
    `extract_text_pdfplumber` and `extract_text_pdfminer`. Each repairs the
    requested page range against the page count its library reports, walks the
    range in order, keeps one record per page whose text is not blank, and
    skips a page whose extraction raises. They differ only in their tag and in
    what happens when their library cannot open the document. */
module Backends {
  import opened Wrappers
  import opened PyStrings
  import opened PdfDocument

  /** Page `n` (1-based) of `pages`, as `pages[n - 1]`: an index past the list
      raises, which the per-page `except` then swallows. */
  function PageAt(pages: seq<PageText>, n: int): PageText {
    if 1 <= n <= |pages| then pages[n - 1] else Raises
  }

  /** The record page `n` contributes, if any. */
  function RecordFor(lib: Library, pages: seq<PageText>, n: int): Option<PageRecord> {
    match PageAt(pages, n)
    case Text(t) =>
      var text := Strip(t);
      if text != [] then Some(PageRecord(n, text, |text|, Tag(lib))) else None
    case _ => None
  }

  /** A page yields a record exactly when its extraction returns a string that
      is not blank. The record then carries that page's number, the stripped
      text, which is non-empty and has no whitespace at either end,
      `char_count` equal to the length of that text, and the library's tag. */
  lemma RecordForMeaning(lib: Library, pages: seq<PageText>, n: int)
    ensures RecordFor(lib, pages, n).Some? <==> PageAt(pages, n).Text? && !AllSpace(PageAt(pages, n).s)
    ensures RecordFor(lib, pages, n).Some? ==>
      var r := RecordFor(lib, pages, n).value;
      && r.page == n
      && r.text == Strip(PageAt(pages, n).s)
      && r.text != [] && Stripped(r.text)
      && r.charCount == |r.text|
      && r.methodName == Tag(lib)
  {
    if PageAt(pages, n).Text? {
      StripEmptyIffBlank(PageAt(pages, n).s);
    }
  }

  /** The records of pages `first..last`, in page order. Every record lies in
      the range and page numbers strictly increase, so no page appears twice. */
  function Collect(lib: Library, pages: seq<PageText>, first: int, last: int): (rs: seq<PageRecord>)
    decreases last - first + 1
    ensures forall i :: 0 <= i < |rs| ==> first <= rs[i].page <= last
    ensures forall i, j :: 0 <= i < j < |rs| ==> rs[i].page < rs[j].page
  {
    if last < first then []
    else
      var rs := Collect(lib, pages, first, last - 1);
      match RecordFor(lib, pages, last)
      case None => rs
      case Some(r) => rs + [r]
  }

  /** Nothing is invented: each record is exactly what its page yields. */
  lemma {:induction false} CollectFaithful(lib: Library, pages: seq<PageText>, first: int, last: int, i: int)
    requires 0 <= i < |Collect(lib, pages, first, last)|
    decreases last - first + 1
    ensures var r := Collect(lib, pages, first, last)[i]; RecordFor(lib, pages, r.page) == Some(r)
  {
    var rs := Collect(lib, pages, first, last - 1);
    if i < |rs| {
      CollectFaithful(lib, pages, first, last - 1, i);
      match RecordFor(lib, pages, last)
      case None =>
      case Some(r) => assert (rs + [r])[i] == rs[i];
    }
  }

  /** No page is lost: every page of the range that yields a record has it in the result. */
  lemma {:induction false} CollectCovers(lib: Library, pages: seq<PageText>, first: int, last: int, n: int)
    requires first <= n <= last
    requires RecordFor(lib, pages, n).Some?
    ensures RecordFor(lib, pages, n).value in Collect(lib, pages, first, last)
  {
    if n < last {
      CollectCovers(lib, pages, first, last - 1, n);
    }
  }

  /** At most one record per page: the result is no longer than the range. */
  lemma CollectLength(lib: Library, pages: seq<PageText>, first: int, last: int)
    requires first <= last
    ensures |Collect(lib, pages, first, last)| <= last - first + 1
  {
    var rs := Collect(lib, pages, first, last);
    if |rs| > last - first + 1 {
      PagesFitRange(rs, first, last);
    }
  }

  /** Strictly increasing page numbers within `first..last` are at most as many as the range. */
  lemma {:induction false} PagesFitRange(rs: seq<PageRecord>, first: int, last: int)
    requires first <= last + 1
    requires forall i :: 0 <= i < |rs| ==> first <= rs[i].page <= last
    requires forall i, j :: 0 <= i < j < |rs| ==> rs[i].page < rs[j].page
    ensures |rs| <= last - first + 1
  {
    if rs != [] {
      var rest := rs[1..];
      assert forall i :: 0 <= i < |rest| ==> rest[i] == rs[i + 1];
      PagesFitRange(rest, rs[0].page + 1, last);
    }
  }

  /** `rs` without the records of page `n`, order kept. */
  function WithoutPage(rs: seq<PageRecord>, n: int): seq<PageRecord> {
    if rs == [] then []
    else
      var r := rs[|rs| - 1];
      WithoutPage(rs[..|rs| - 1], n) + (if r.page == n then [] else [r])
  }

  /** `WithoutPage` keeps exactly the records of the other pages. */
  lemma {:induction false} WithoutPageMembers(rs: seq<PageRecord>, n: int, r: PageRecord)
    ensures r in WithoutPage(rs, n) <==> r in rs && r.page != n
  {
    if rs != [] {
      var init := rs[..|rs| - 1];
      assert rs == init + [rs[|rs| - 1]];
      WithoutPageMembers(init, n, r);
    }
  }

  lemma WithoutPageSnoc(rs: seq<PageRecord>, r: PageRecord, n: int)
    ensures WithoutPage(rs + [r], n) == WithoutPage(rs, n) + (if r.page == n then [] else [r])
  {
    assert (rs + [r])[..|rs|] == rs;
  }

  /** Making page `k + 1` raise changes what that page yields, and nothing else. */
  lemma RecordForAfterFailure(lib: Library, pages: seq<PageText>, k: int, n: int)
    requires 0 <= k < |pages|
    ensures RecordFor(lib, pages[k := Raises], n) == if n == k + 1 then None else RecordFor(lib, pages, n)
  {
    assert PageAt(pages[k := Raises], n) == if n == k + 1 then Raises else PageAt(pages, n);
  }

  /** A failure on one page skips only that page: making page `k + 1` raise
      gives the same records as before except those of that page, and every
      other page of the range is still read. */
  lemma {:induction false} FailingPageDropsOnlyItself(lib: Library, pages: seq<PageText>, first: int, last: int, k: int)
    requires 0 <= k < |pages|
    decreases last - first + 1
    ensures Collect(lib, pages[k := Raises], first, last) == WithoutPage(Collect(lib, pages, first, last), k + 1)
  {
    if first <= last {
      FailingPageDropsOnlyItself(lib, pages, first, last - 1, k);
      RecordForAfterFailure(lib, pages, k, last);
      match RecordFor(lib, pages, last)
      case None =>
      case Some(r) =>
        WithoutPageSnoc(Collect(lib, pages, first, last - 1), r, k + 1);
    }
  }

  /** `end_page` once `None` has been replaced by `get_num_pages()`, which opens
      the file with PyPDF2 outside any `try`: `None` here means that open raised. */
  function ResolveEnd(doc: Document, end: Option<int>): Option<int> {
    match end
    case Some(e) => Some(e)
    case None => if doc.pypdf2.Pages? then Some(|doc.pypdf2.pages|) else None
  }

  /** What backend `lib` returns or raises for the request `(start, end)`. */
  function Extraction(doc: Document, lib: Library, start: int, end: Option<int>): Outcome {
    match ResolveEnd(doc, end)
    case None => Raised
    case Some(endPage) =>
      match ViewOf(doc, lib)
      case CannotOpen => if lib == PyPdf2 then Raised else Returned([])
      case Pages(pages) =>
        var (first, last) := Clamp(start, endPage, |pages|);
        Returned(Collect(lib, pages, first, last))
  }

  /** A backend raises only when PyPDF2 cannot open the document, and then only
      if it is the PyPDF2 backend itself or the end page was left open (and so
      had to be counted with PyPDF2). pdfplumber and pdfminer turn their own
      open failure into `[]`. Otherwise every record lies in the repaired range
      and inside the document, pages strictly increase, and each record is what
      its page yields, tagged with the backend's name. */
  lemma ExtractionMeaning(doc: Document, lib: Library, start: int, end: Option<int>)
    ensures Extraction(doc, lib, start, end).Raised? <==> doc.pypdf2.CannotOpen? && (lib == PyPdf2 || end.None?)
    ensures ResolveEnd(doc, end).Some? && lib != PyPdf2 && ViewOf(doc, lib).CannotOpen? ==>
      Extraction(doc, lib, start, end) == Returned([])
    ensures Extraction(doc, lib, start, end).Returned? && ViewOf(doc, lib).Pages? ==>
      var rs := Extraction(doc, lib, start, end).records;
      var pages := ViewOf(doc, lib).pages;
      var (first, last) := Clamp(start, ResolveEnd(doc, end).value, |pages|);
      && (forall i :: 0 <= i < |rs| ==> first <= rs[i].page <= last && 1 <= rs[i].page <= |pages|)
      && (forall i, j :: 0 <= i < j < |rs| ==> rs[i].page < rs[j].page)
      && (forall i :: 0 <= i < |rs| ==> RecordFor(lib, pages, rs[i].page) == Some(rs[i]))
      && (forall i :: 0 <= i < |rs| ==> rs[i].methodName == Tag(lib) && rs[i].charCount == |rs[i].text| && rs[i].text != [])
  {
    if Extraction(doc, lib, start, end).Returned? && ViewOf(doc, lib).Pages? {
      var rs := Extraction(doc, lib, start, end).records;
      var pages := ViewOf(doc, lib).pages;
      var (first, last) := Clamp(start, ResolveEnd(doc, end).value, |pages|);
      forall i | 0 <= i < |rs|
        ensures RecordFor(lib, pages, rs[i].page) == Some(rs[i])
        ensures 1 <= rs[i].page <= |pages|
        ensures rs[i].methodName == Tag(lib) && rs[i].charCount == |rs[i].text| && rs[i].text != []
      {
        CollectFaithful(lib, pages, first, last, i);
        RecordForMeaning(lib, pages, rs[i].page);
      }
    }
  }

  /** The page loop every backend runs (the range repair and page loop of `extract_text_pypdf2`, repeated in the pdfplumber and pdfminer backends):
      repair the range, then read each page in order, keep the stripped text
      of pages that are not blank, and skip a page whose extraction raises. */
  method ReadPages(lib: Library, pages: seq<PageText>, start: int, endPage: int) returns (records: seq<PageRecord>)
    ensures records == Collect(lib, pages, Clamp(start, endPage, |pages|).0, Clamp(start, endPage, |pages|).1)
  {
    var total := |pages|;
    var (first, last) := Clamp(start, endPage, total);
    records := [];
    var pageNum := first - 1;
    while pageNum < last
      invariant first - 1 <= pageNum <= last
      invariant records == Collect(lib, pages, first, pageNum)
    {
      var text := if pageNum < total then pages[pageNum] else Raises;
      assert text == PageAt(pages, pageNum + 1);
      ghost var before := records;
      if text.Text? {
        var stripped := Strip(text.s);
        if stripped != [] {
          records := records + [PageRecord(pageNum + 1, stripped, |stripped|, Tag(lib))];
        }
      }
      assert records == match RecordFor(lib, pages, pageNum + 1)
        case None => before
        case Some(r) => before + [r];
      pageNum := pageNum + 1;
    }
  }

  /** `extract_text_pypdf2`: it has no outer `try`, so a PyPDF2 open failure escapes. */
  method ExtractPyPdf2(doc: Document, start: int, end: Option<int>) returns (out: Outcome)
    ensures out == Extraction(doc, PyPdf2, start, end)
  {
    var endPage := ResolveEnd(doc, end);
    if endPage.None? {
      return Raised;
    }
    match doc.pypdf2
    case CannotOpen =>
      return Raised;
    case Pages(pages) =>
      var records := ReadPages(PyPdf2, pages, start, endPage.value);
      return Returned(records);
  }

  /** `extract_text_pdfplumber`: `get_num_pages()` runs before the `try`, and a
      pdfplumber open failure inside it returns `[]`. */
  method ExtractPdfPlumber(doc: Document, start: int, end: Option<int>) returns (out: Outcome)
    ensures out == Extraction(doc, PdfPlumber, start, end)
  {
    var endPage := ResolveEnd(doc, end);
    if endPage.None? {
      return Raised;
    }
    match doc.plumber
    case CannotOpen =>
      return Returned([]);
    case Pages(pages) =>
      var records := ReadPages(PdfPlumber, pages, start, endPage.value);
      return Returned(records);
  }

  /** `extract_text_pdfminer`: like pdfplumber, with the page list taken from
      `PDFPage.get_pages` and each page's text from a separate `extract_text` call. */
  method ExtractPdfMiner(doc: Document, start: int, end: Option<int>) returns (out: Outcome)
    ensures out == Extraction(doc, PdfMiner, start, end)
  {
    var endPage := ResolveEnd(doc, end);
    if endPage.None? {
      return Raised;
    }
    match doc.miner
    case CannotOpen =>
      return Returned([]);
    case Pages(pages) =>
      var records := ReadPages(PdfMiner, pages, start, endPage.value);
      return Returned(records);
  }
}
