/** `extract_text_best_method` and `extract_text_from_page`: run all three
    backends in the fixed order pdfplumber, PyPDF2, pdfminer, count a backend
    that raises as having found nothing, and keep the result with the most
    records; on a tie the earlier backend stays, because only a strictly longer
    result replaces the current best. */
module Selector {
  import opened Wrappers
  import opened PdfDocument
  import opened Backends

  /** The order in which the selector tries the backends. */
  const Order: seq<Library> := [PdfPlumber, PyPdf2, PdfMiner]

  /** What the selector compares for one backend: its records, or nothing when it raised. */
  function Candidate(out: Outcome): seq<PageRecord> {
    if out.Returned? then out.records else []
  }

  /** The three candidates for the request `(start, end)`, in `Order`. */
  function Candidates(doc: Document, start: int, end: Option<int>): seq<seq<PageRecord>> {
    seq(|Order|, i requires 0 <= i < |Order| => Candidate(Extraction(doc, Order[i], start, end)))
  }

  /** Index of the candidate the selection loop keeps, if any: scanning left to
      right, a candidate replaces the current best only if it is non-empty and
      strictly longer. */
  function Winner(cs: seq<seq<PageRecord>>): (w: Option<nat>)
    ensures w.Some? ==> w.value < |cs|
  {
    if cs == [] then None
    else
      var w := Winner(cs[..|cs| - 1]);
      var bestLength := if w.Some? then |cs[w.value]| else 0;
      var c := cs[|cs| - 1];
      if c != [] && |c| > bestLength then Some(|cs| - 1) else w
  }

  /** The records the selector returns: the winner's, or `[]` when there is none. */
  function Best(cs: seq<seq<PageRecord>>): seq<PageRecord> {
    match Winner(cs)
    case None => []
    case Some(k) => cs[k]
  }

  /** The largest candidate length, `0` for no candidates. */
  function MaxLength(cs: seq<seq<PageRecord>>): (m: nat)
    ensures forall j :: 0 <= j < |cs| ==> |cs[j]| <= m
    ensures cs != [] ==> exists j :: 0 <= j < |cs| && |cs[j]| == m
  {
    if cs == [] then 0
    else
      var init := cs[..|cs| - 1];
      var m := MaxLength(init);
      assert forall j :: 0 <= j < |init| ==> init[j] == cs[j];
      if |cs[|cs| - 1]| > m then |cs[|cs| - 1]| else m
  }

  /** The winner is the FIRST candidate of greatest length, provided that length
      is not zero; there is no winner exactly when every candidate is empty. So
      the result has the maximum length, a later backend never displaces an
      earlier one of equal length, and an all-empty comparison gives `[]`. */
  lemma {:induction false} WinnerIsFirstLongest(cs: seq<seq<PageRecord>>)
    ensures Winner(cs).None? <==> forall j :: 0 <= j < |cs| ==> cs[j] == []
    ensures Winner(cs).Some? ==>
      var k := Winner(cs).value;
      && cs[k] != []
      && |cs[k]| == MaxLength(cs)
      && (forall j :: 0 <= j < k ==> |cs[j]| < |cs[k]|)
    ensures |Best(cs)| == MaxLength(cs)
  {
    if cs != [] {
      var init := cs[..|cs| - 1];
      WinnerIsFirstLongest(init);
      assert forall j :: 0 <= j < |init| ==> init[j] == cs[j];
    }
  }

  /** The converse: the first non-empty candidate of greatest length is the winner. */
  lemma FirstLongestIsWinner(cs: seq<seq<PageRecord>>, k: int)
    requires 0 <= k < |cs| && cs[k] != []
    requires forall j :: 0 <= j < |cs| ==> |cs[j]| <= |cs[k]|
    requires forall j :: 0 <= j < k ==> |cs[j]| < |cs[k]|
    ensures Winner(cs) == Some(k)
  {
    WinnerIsFirstLongest(cs);
    var w := Winner(cs).value;
    assert |cs[w]| == |cs[k]|;
  }

  /** The selected result is one backend's whole output: the winner opened the
      document, every record carries the winner's tag, has non-empty text with
      `char_count` equal to its length, and page numbers strictly increase. */
  lemma SelectionIsOneBackendsOutput(doc: Document, start: int, end: Option<int>)
    ensures var cs := Candidates(doc, start, end);
      Winner(cs).Some? ==>
        var lib := Order[Winner(cs).value];
        var best := Best(cs);
        && ViewOf(doc, lib).Pages?
        && Extraction(doc, lib, start, end) == Returned(best)
        && (forall i :: 0 <= i < |best| ==> best[i].methodName == Tag(lib) && best[i].charCount == |best[i].text| && best[i].text != [])
        && (forall i, j :: 0 <= i < j < |best| ==> best[i].page < best[j].page)
  {
    var cs := Candidates(doc, start, end);
    WinnerIsFirstLongest(cs);
    if Winner(cs).Some? {
      ExtractionMeaning(doc, Order[Winner(cs).value], start, end);
    }
  }

  /** `extract_text_best_method`: returns the selected records and the name of
      the backend they came from (the local `best_method`, `None` if none). */
  method ExtractBest(doc: Document, start: int, end: Option<int>) returns (best: seq<PageRecord>, bestMethod: Option<Library>)
    ensures best == Best(Candidates(doc, start, end))
    ensures bestMethod == match Winner(Candidates(doc, start, end))
      case None => None
      case Some(k) => Some(Order[k])
    ensures |best| == MaxLength(Candidates(doc, start, end))
    ensures bestMethod.None? <==> best == []
  {
    ghost var cs := Candidates(doc, start, end);
    ghost var w: Option<nat> := None;
    best, bestMethod := [], None;
    for i := 0 to |Order|
      invariant w == Winner(cs[..i])
      invariant best == match w case None => [] case Some(k) => cs[k]
      invariant bestMethod == match w case None => None case Some(k) => Some(Order[k])
    {
      var lib := Order[i];
      var out: Outcome;
      match lib {
        case PdfPlumber => out := ExtractPdfPlumber(doc, start, end);
        case PyPdf2 => out := ExtractPyPdf2(doc, start, end);
        case PdfMiner => out := ExtractPdfMiner(doc, start, end);
      }
      // A backend that raised is caught here and leaves the best result as it was.
      var result := if out.Returned? then out.records else [];
      assert cs[..i + 1][..i] == cs[..i];
      if result != [] && |result| > |best| {
        best, bestMethod := result, Some(lib);
        w := Some(i);
      }
    }
    assert cs[..|Order|] == cs;
    WinnerIsFirstLongest(cs);
  }

  /** `extract_text_from_page(n)`: the selector over the range `(n, n)`. Every
      backend repairs that range to a single page, so at most one record comes
      back; it comes from the winning backend, whose document opened, and its
      page is `n` clamped to that document, so it is `n` whenever that document
      has a page `n`. */
  method ExtractTextFromPage(doc: Document, n: int) returns (records: seq<PageRecord>)
    ensures records == Best(Candidates(doc, n, Some(n)))
    ensures |records| <= 1
    ensures records != [] ==>
      && Winner(Candidates(doc, n, Some(n))).Some?
      && var lib := Order[Winner(Candidates(doc, n, Some(n))).value];
        && ViewOf(doc, lib).Pages?
        && records[0].page == Clamp(n, n, |ViewOf(doc, lib).pages|).0
        && (1 <= n <= |ViewOf(doc, lib).pages| ==> records[0].page == n)
  {
    var bestMethod;
    records, bestMethod := ExtractBest(doc, n, Some(n));
    ghost var cs := Candidates(doc, n, Some(n));
    WinnerIsFirstLongest(cs);
    if records != [] {
      var k := Winner(cs).value;
      var lib := Order[k];
      ExtractionMeaning(doc, lib, n, Some(n));
      var pages := ViewOf(doc, lib).pages;
      var (first, last) := Clamp(n, n, |pages|);
      CollectLength(lib, pages, first, last);
    }
  }
}
