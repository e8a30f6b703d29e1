# Multi-backend PDF text extraction, modelled in Dafny

This project models the core of `PDFReader` in `src/pdf_processor.py`. The reader
pulls per-page text out of a PDF with three libraries: pdfplumber, PyPDF2 and
pdfminer. It keeps whichever result has the most pages. It also models the `.env`
line parser `load_env_config`.

The libraries are replaced by an abstract document (`PdfDocument.Document`). Each
library gets its own view of the file. A view is either "cannot open" or a list of
pages. Extracting one page's text gives a string, Python's `None`, or an exception.

- `PyStrings.dfy`: the parts of Python's `str` the code relies on. These are `strip()`
  (with Python's own whitespace set), `lower()`, `endswith` and `split('=', 1)`.
- `EnvConfig.dfy`: `load_env_config`, both as a function over the file's lines and
  as the loop that fills the dictionary.
- `PdfDocument.dfy`: libraries and their tags, the document oracle, page records, and
  the page-range repair `max(1, min(start, total))`, `max(start, min(end, total))`.
- `Backends.dfy`: `extract_text_pypdf2`, `extract_text_pdfplumber` and
  `extract_text_pdfminer`. There is one specification function (`Extraction`), one
  shared page loop (`ReadPages`), and three methods that differ only in how they
  handle an open failure.
- `Selector.dfy`: `extract_text_best_method` and `extract_text_from_page`.
- `Validation.dfy`: `validate_file`. The file system is a map from existing paths to
  documents, and "PyPDF2 can parse it" means that PyPDF2's view opens.

Two facts about the code shape the model:

- `extract_text_pypdf2` has no outer `try` (src/pdf_processor.py:92-116), so a
  PyPDF2 open failure escapes it. With `end_page=None`, every backend calls
  `get_num_pages()`, which opens the file with PyPDF2, before its own `try`
  (src/pdf_processor.py:87-88, :122-123, :161-162). So a PyPDF2 open failure can make
  any backend raise. The selector's `except` then counts that backend as empty
  (`Backends.ExtractionMeaning`, `Selector.Candidate`).
- The page count is re-read on every call, by each library for itself
  (src/pdf_processor.py:94, :129, :169). The clamp uses the count of the library
  doing the extraction.

## Model

| member | source | states |
|---|---|---|
| `EnvConfig.ParseLineMeaning` | src/pdf_processor.py:23-26 | A line is skipped exactly when it is blank, starts with `#` after stripping, or holds no `=`. Otherwise it gives a stripped key that holds no `=` and a stripped value. |
| `EnvConfig.ParseLineSplitsAtFirstEquals` | src/pdf_processor.py:25-26 | The line is split at its first `=`: a stripped line `head=tail` with no `=` in `head` gives key `head.strip()` and value `tail.strip()`, so `a=b=c` maps `a` to `b=c`. |
| `EnvConfig.ParseLineRoundTrip` | src/pdf_processor.py:23-26 | Writing a valid entry as `key=value` and parsing the line gives back exactly `(key, value)`. |
| `EnvConfig.LoadEnvConfig` | src/pdf_processor.py:15-28 | The loop over the lines builds exactly `LoadEnv(lines)`, the entries applied in file order. |
| `EnvConfig.LoadEnvSnoc` | src/pdf_processor.py:22-26 | Reading one more line applies that line's entry, if any, on top of the configuration so far. |
| `EnvConfig.LoadEnvKeys` | src/pdf_processor.py:22-26 | A key is in the configuration exactly when some line defines it. |
| `EnvConfig.LastDefinitionWins` | src/pdf_processor.py:26 | The value of a key is the one given by the last line that defines it. |
| `EnvConfig.SkippedLineChangesNothing` | src/pdf_processor.py:24 | Adding a blank, comment or `=`-less line leaves the configuration unchanged. |
| `PyStrings.StripEmptyIffBlank` | src/pdf_processor.py:105 | `text.strip()` is empty exactly when `text` consists only of whitespace. |
| `PyStrings.InStripIff` | src/pdf_processor.py:23-24 | A non-whitespace character such as `=` occurs in the stripped line exactly when it occurs in the raw line. |
| `PyStrings.SplitOnceUnique` | src/pdf_processor.py:25 | `split('=', 1)` splits at the first `=`: any decomposition `head + "=" + tail` with no `=` in `head` is the split. |
| `PdfDocument.Clamp` | src/pdf_processor.py:97-98 | It never fails, and the result satisfies `1 <= start <= end`. If the document has a page, then `end <= total`; if it has none, the result is `(1, 1)`. A bound that is already valid is kept. An inverted request becomes one page. `start <= 1` with `end >= total` gives the whole document. |
| `PdfDocument.ClampIdempotent` | src/pdf_processor.py:132-133 | Clamping an already clamped range changes nothing, including for a document with no pages. |
| `PdfDocument.TagIdentifiesLibrary` | src/pdf_processor.py:110 | The three `method` tags written into records (here and at lines 145 and 185) are distinct, so a record's tag identifies its backend. |
| `Backends.RecordForMeaning` | src/pdf_processor.py:105-111 | A page gives a record exactly when its text is a non-blank string. The record then has that page number, the stripped text (non-empty, with no whitespace at either end), `char_count` equal to the text's length, and the backend's tag. |
| `Backends.CollectFaithful` | src/pdf_processor.py:100-111 | Every record in the result is exactly what its page yields. |
| `Backends.CollectCovers` | src/pdf_processor.py:100-114 | Every page in the range that yields a record appears in the result. |
| `Backends.CollectLength` | src/pdf_processor.py:100 | There is at most one record per page of the range. |
| `Backends.FailingPageDropsOnlyItself` | src/pdf_processor.py:112-114 | If one page's extraction raises, the result is the old result minus that page's record; every other page is still read. |
| `Backends.RecordForAfterFailure` | src/pdf_processor.py:101-103 | A raising page changes what that page yields and nothing else. |
| `Backends.ExtractionMeaning` | src/pdf_processor.py:83-195 | A backend raises exactly when PyPDF2 cannot open the document and the backend is PyPDF2 or `end_page` is `None`. pdfplumber and pdfminer return `[]` on their own open failure. Otherwise records lie in the clamped range and inside the document, with strictly increasing pages, each being what its page yields, with the backend's tag and `char_count == len(text)`. |
| `Backends.ReadPages` | src/pdf_processor.py:97-114 | The clamp-then-loop body builds exactly the records of the clamped range. |
| `Backends.ExtractPyPdf2` | src/pdf_processor.py:83-116 | `extract_text_pypdf2` returns or raises as `Extraction(doc, PyPdf2, …)` says; an open failure escapes. |
| `Backends.ExtractPdfPlumber` | src/pdf_processor.py:118-155 | `extract_text_pdfplumber` returns or raises as `Extraction(doc, PdfPlumber, …)` says; its own open failure gives `[]`. |
| `Backends.ExtractPdfMiner` | src/pdf_processor.py:157-195 | `extract_text_pdfminer` returns or raises as `Extraction(doc, PdfMiner, …)` says; its own open failure gives `[]`. |
| `Selector.WinnerIsFirstLongest` | src/pdf_processor.py:210-236 | The kept result is the first candidate of maximal length, where a raising backend counts as `[]`. Its length equals the maximum length. Every earlier candidate is strictly shorter. There is no winner, and the result is `[]`, exactly when all candidates are empty. |
| `Selector.FirstLongestIsWinner` | src/pdf_processor.py:218-220 | Conversely, the first non-empty candidate of maximal length is the one kept. |
| `Selector.SelectionIsOneBackendsOutput` | src/pdf_processor.py:213-233 | The result is the winning backend's whole output: one tag throughout, strictly increasing pages, and `char_count == len(text)`. |
| `Selector.ExtractBest` | src/pdf_processor.py:197-236 | Runs all three backends in order and returns `Best` of their candidates and the winner's name. The result length is the maximum candidate length, and there is no winner exactly when the result is `[]`. |
| `Selector.ExtractTextFromPage` | src/pdf_processor.py:238-240 | Returns at most one record. If there is one, it comes from the winning backend, whose view opened, and its page is the clamp of `n` against that view's page count, so it is `n` whenever that view has a page `n`. |
| `Validation.PdfSuffixIgnoresCase` | src/pdf_processor.py:62 | `lower().endswith('.pdf')` holds exactly when the last four characters are `.`, `p`/`P`, `d`/`D`, `f`/`F`. |
| `Validation.ValidateFile` | src/pdf_processor.py:57-70 | Validation succeeds exactly for an existing path with a `.pdf` suffix in any case whose document PyPDF2 opens, and then returns that document. It reports "corrupted" exactly when the path exists, has the suffix, and PyPDF2 cannot open it. |
| `Validation.ValidationOrder` | src/pdf_processor.py:59-63 | A missing path is "not found" whatever its name. An existing non-`.pdf` path is rejected the same way whatever the file holds, before any parse. "Corrupted" only ever follows a passing suffix check. |
| `Validation.ValidatedDocumentNeverRaises` | src/pdf_processor.py:65-70 | In the model, where a view that opens also has its page count, no backend raises on a document that passed validation, for any library, range or `end_page`. |

## Left out

- The calls into PyPDF2, pdfplumber and pdfminer. Each library is an oracle: "cannot open", or a list of pages each giving a string, `None` or an exception. Whether a given file parses is not modelled.
- An index past a library's page list raises. This happens only when the document has no pages, because the clamp then gives `(1, 1)`. The model treats that page as raising. For pdfminer the real call may instead return empty text. Both give no record.
- The file system: `os.path.exists`, `open`, the `.env` file's location and reading it line by line. The parser takes the lines as a sequence, and a missing file is the empty sequence.
- The `ENV_CONFIG` global and the reader's constructor settings: `verbose`, and `max_pages`/`timeout` with their `int()` conversion. The two limits are read but never enforced.
- The `PDFReader` object itself: its fields never change after construction, so the model passes the validated document as a value.
- Opening a document with a library and counting its pages (`len(reader.pages)`, src/pdf_processor.py:81, :94) are one step in the model: a view either cannot open or is a list of pages. Validation checks only PyPDF2's constructor (src/pdf_processor.py:66-68), so in the program a count that fails after validation could still make a backend raise. The model does not capture that.
- `get_num_pages` appears only as PyPDF2's page count when `end_page` is `None` (`Backends.ResolveEnd`). `get_file_info` is left out: it is file-system metadata and a float division.
- Verbose logging (`_print` and every message). `ExtractBest` returns `best_method`, which the code only logs.
- Page arguments that are not integers, such as floats or `None` for `start_page`.
- `lower()` is modelled on ASCII letters only. No other character lowers to `.`, `p`, `d` or `f`, so the suffix test is unaffected.
- `src/chat_client.py`, an HTTP client over `requests`, is not part of this model. Its `load_env_config` (lines 14-27) is a verbatim copy of the one modelled here.
