/** `PDFReader.validate_file`, run once when a reader is built: the path must
    exist, must end in `.pdf` in any letter case, and must open with PyPDF2,
    checked in that order. The file system is a map from the paths that exist
    to the documents stored there. */
module Validation {
  import opened Wrappers
  import opened PyStrings
  import opened PdfDocument
  import opened Backends

  datatype Disk = Disk(files: map<string, Document>)

  /** `FileNotFoundError`, the `ValueError` for a wrong suffix, and the
      `ValueError` for a document PyPDF2 cannot open. */
  datatype ValidationError = NotFound | NotPdf | Corrupted

  /** `path.lower().endswith('.pdf')`. */
  predicate HasPdfSuffix(path: string) {
    EndsWith(Lower(path), ".pdf")
  }

  /** The suffix test ignores letter case and nothing else: the last four
      characters are `.` followed by `p`, `d`, `f`, each in either case. */
  lemma PdfSuffixIgnoresCase(path: string)
    ensures HasPdfSuffix(path) <==>
      && |path| >= 4
      && path[|path| - 4] == '.'
      && path[|path| - 3] in {'p', 'P'}
      && path[|path| - 2] in {'d', 'D'}
      && path[|path| - 1] in {'f', 'F'}
  {
    var low := Lower(path);
    if |path| >= 4 {
      var tail := low[|low| - 4..];
      assert tail == [low[|low| - 4], low[|low| - 3], low[|low| - 2], low[|low| - 1]];
    }
  }

  /** `validate_file`: the document behind `path`, or the first check that fails. */
  function ValidateFile(disk: Disk, path: string): (r: Result<Document, ValidationError>)
    ensures r.Success? <==> path in disk.files && HasPdfSuffix(path) && disk.files[path].pypdf2.Pages?
    ensures r.Success? ==> r.value == disk.files[path]
    ensures r == Failure(Corrupted) <==> path in disk.files && HasPdfSuffix(path) && disk.files[path].pypdf2.CannotOpen?
  {
    if path !in disk.files then Failure(NotFound)
    else if !HasPdfSuffix(path) then Failure(NotPdf)
    else if disk.files[path].pypdf2.CannotOpen? then Failure(Corrupted)
    else Success(disk.files[path])
  }

  /** A missing path is reported as not found whatever its name, and a path that
      exists but does not end in `.pdf` is rejected without its contents being
      looked at: any two disks that hold the path give the same answer. */
  lemma ValidationOrder(disk: Disk, other: Disk, path: string)
    ensures path !in disk.files ==> ValidateFile(disk, path) == Failure(NotFound)
    ensures path in disk.files && path in other.files && !HasPdfSuffix(path) ==>
      ValidateFile(disk, path) == ValidateFile(other, path) == Failure(NotPdf)
    ensures ValidateFile(disk, path) == Failure(Corrupted) ==> HasPdfSuffix(path)
  {
  }

  /** After validation no backend raises: PyPDF2 opens the document, so neither
      the PyPDF2 backend nor the page count for an open end page can fail. */
  lemma ValidatedDocumentNeverRaises(disk: Disk, path: string, lib: Library, start: int, end: Option<int>)
    requires ValidateFile(disk, path).Success?
    ensures Extraction(ValidateFile(disk, path).value, lib, start, end).Returned?
  {
    ExtractionMeaning(ValidateFile(disk, path).value, lib, start, end);
  }
}
