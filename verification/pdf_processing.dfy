/** The book upload of app/api/pdf_processing.py (`upload_pdf`): a size
    guard, a per-user duplicate guard, then a fixed pipeline — save the PDF,
    extract its text, embed it, save the embeddings, store the row — each of
    whose failures ends the request.

    The library is the `books` table together with the files under `data/`.
    File writes that raise are given as `Faults`; the clock is the `now`
    parameter; the OCR engine, the tokenizer and the embedding service are
    the `Services`. */
module PdfProcessing {
  import opened Outcomes
  import opened Embeddings
  import opened PdfText
  import opened Books

  /** 200 MiB. */
  const MaxFileSize: nat := 200 * 1024 * 1024

  const BooksFolder := "data/books"
  const EmbeddingsFolder := "data/embeddings"

  const TooLarge := HttpError(400, "File too large. Maximum allowed size is 200MB.")
  const AlreadyUploaded := HttpError(400, "This book is already uploaded.")
  const SaveFileFailed := HttpError(500, "Error saving file")
  const SaveEmbeddingsFailed := HttpError(500, "Error saving embeddings file")

  const UploadedMessage := "PDF uploaded and stored successfully!"

  /** What a path under `data/` holds. */
  datatype StoredFile = PdfFile(doc: Document) | EmbeddingFile(vectors: seq<Vector>)

  /** The uploaded file: its client-side name, its size in bytes and its
      content. */
  datatype Upload = Upload(filename: string, size: nat, doc: Document)

  /** The foreign code the upload calls. */
  datatype Services = Services(tokenizer: Tokenizer, embed: EmbeddingService, ocr: OcrEngine)

  /** Whether writing the PDF file, and the embeddings file, raises. */
  datatype Faults = Faults(pdfWrite: bool, embeddingWrite: bool)

  /** The JSON body of a successful upload. */
  datatype UploadReply = UploadReply(message: string, bookId: nat, embeddingFile: string)

  /** The `books` rows and the files under `data/`, by path. */
  datatype LibraryState = LibraryState(books: seq<Book>, disk: map<string, StoredFile>)

  /** `os.path.join(folder, name)`: a name that is itself an absolute path
      replaces the folder. */
  function PathJoin(folder: string, name: string): (p: string)
    ensures |name| > 0 && name[0] == '/' ==> p == name
    ensures (|name| == 0 || name[0] != '/') ==> p == folder + "/" + name
  {
    if |name| > 0 && name[0] == '/' then name else folder + "/" + name
  }

  /** Where the PDF is written: it depends on the file name only. */
  function PdfPath(filename: string): string {
    PathJoin(BooksFolder, filename)
  }

  /** Where the pickled embeddings are written: the file name and ".pkl". */
  function EmbeddingPath(filename: string): string {
    PathJoin(EmbeddingsFolder, filename + ".pkl")
  }

  /** The duplicate query: a row with this file name for this user. */
  predicate HasBook(books: seq<Book>, filename: string, user: nat) {
    exists b :: b in books && b.filename == filename && b.userId == user
  }

  /** The unique constraint on `filename`: a row with this file name for any
      user. */
  predicate FilenameTaken(books: seq<Book>, filename: string) {
    exists b :: b in books && b.filename == filename
  }

  /** The id SQLite gives a new row of a table without deletions: one more
      than the largest id so far, 1 for an empty table. */
  function NextId(books: seq<Book>): (id: nat)
    ensures id >= 1 && forall b :: b in books ==> b.id < id
  {
    if books == [] then 1
    else
      var rest := NextId(books[1..]);
      assert forall b :: b in books ==> b == books[0] || b in books[1..];
      if books[0].id + 1 > rest then books[0].id + 1 else rest
  }

  /** The new state and the response of one `upload_pdf` call, given what
      extracting the saved PDF gives (`Extract` of the upload's document,
      as `Library.UploadPdf` establishes). The embedding call and the row
      insert are not guarded, so their failures end in `Unhandled`. */
  function Ingest(s: LibraryState, u: Upload, user: nat, now: int, extraction: Result<string, HttpError>,
                  sv: Services, faults: Faults)
    : (LibraryState, Result<UploadReply, HttpError>)
  {
    if u.size > MaxFileSize then (s, Failure(TooLarge))
    else if HasBook(s.books, u.filename, user) then (s, Failure(AlreadyUploaded))
    else if faults.pdfWrite then (s, Failure(SaveFileFailed))
    else
      var saved := s.(disk := s.disk[PdfPath(u.filename) := PdfFile(u.doc)]);
      match extraction
      case Failure(e) => (saved, Failure(e))
      case Success(text) =>
        match CreateEmbeddings(Single(text), sv.tokenizer, sv.embed)
        case None => (saved, Failure(Unhandled))
        case Some(vectors) =>
          if faults.embeddingWrite then (saved, Failure(SaveEmbeddingsFailed))
          else
            var written := saved.(disk := saved.disk[EmbeddingPath(u.filename) := EmbeddingFile(vectors)]);
            if FilenameTaken(s.books, u.filename) then (written, Failure(Unhandled))
            else
              var id := NextId(s.books);
              (written.(books := s.books + [Book(id, u.filename, text, vectors, user, now)]),
               Success(UploadReply(UploadedMessage, id, EmbeddingPath(u.filename))))
  }

  /** The table keeps its primary key and its unique file names across an
      upload. */
  lemma IngestKeepsConstraints(s: LibraryState, u: Upload, user: nat, now: int, extraction: Result<string, HttpError>, sv: Services, faults: Faults)
    requires TableConstraints(s.books)
    ensures TableConstraints(Ingest(s, u, user, now, extraction, sv, faults).0.books)
  {
    var books' := Ingest(s, u, user, now, extraction, sv, faults).0.books;
    if books' != s.books {
      var b := books'[|books'| - 1];
      assert books' == s.books + [b];
      assert forall i :: 0 <= i < |s.books| ==> s.books[i] in s.books;
      forall i, j | 0 <= i < j < |books'|
        ensures books'[i].id != books'[j].id && books'[i].filename != books'[j].filename
      {
        if j == |books'| - 1 {
          assert books'[i] in s.books;
        }
      }
    }
  }

  /** The size guard comes first: a file over 200 MiB is refused before
      anything is looked at or written. Below the limit, and at exactly
      200 MiB, the size changes nothing. */
  lemma SizeGuardFirst(s: LibraryState, u: Upload, user: nat, now: int, extraction: Result<string, HttpError>, sv: Services, faults: Faults)
    ensures u.size > MaxFileSize ==> Ingest(s, u, user, now, extraction, sv, faults) == (s, Failure(TooLarge))
    ensures u.size <= MaxFileSize ==>
              Ingest(s, u, user, now, extraction, sv, faults) == Ingest(s, u.(size := 0), user, now, extraction, sv, faults)
    ensures MaxFileSize == 200 * 1024 * 1024
  {
  }

  /** A second upload of the same file name by the same user is refused,
      with no file written and no row added. */
  lemma DuplicateRejected(s: LibraryState, u: Upload, user: nat, now: int, extraction: Result<string, HttpError>, sv: Services, faults: Faults)
    requires u.size <= MaxFileSize && HasBook(s.books, u.filename, user)
    ensures Ingest(s, u, user, now, extraction, sv, faults) == (s, Failure(AlreadyUploaded))
  {
  }

  /** Only full success adds a row: after any failure the table is as it
      was. A refusal by a guard, or a failed PDF write, leaves the files
      alone too; past that point the PDF has been written. */
  lemma FailureKeepsTable(s: LibraryState, u: Upload, user: nat, now: int, extraction: Result<string, HttpError>, sv: Services, faults: Faults)
    requires Ingest(s, u, user, now, extraction, sv, faults).1.Failure?
    ensures Ingest(s, u, user, now, extraction, sv, faults).0.books == s.books
    ensures u.size > MaxFileSize || HasBook(s.books, u.filename, user) || faults.pdfWrite ==>
              Ingest(s, u, user, now, extraction, sv, faults).0 == s
    ensures !(u.size > MaxFileSize || HasBook(s.books, u.filename, user) || faults.pdfWrite) ==>
              Ingest(s, u, user, now, extraction, sv, faults).0.disk[PdfPath(u.filename)] == PdfFile(u.doc)
  {
  }

  /** A successful upload appends exactly one row — the file name, the
      extracted text, its embeddings, the uploader and the time — under a
      fresh id, writes both files, and answers with that id and the
      embeddings path. */
  lemma SuccessAppendsOne(s: LibraryState, u: Upload, user: nat, now: int, extraction: Result<string, HttpError>, sv: Services, faults: Faults)
    requires Ingest(s, u, user, now, extraction, sv, faults).1.Success?
    ensures u.size <= MaxFileSize && !HasBook(s.books, u.filename, user) && !FilenameTaken(s.books, u.filename)
    ensures extraction.Success?
    ensures CreateEmbeddings(Single(extraction.value), sv.tokenizer, sv.embed).Some?
    ensures var text := extraction.value;
            var vectors := CreateEmbeddings(Single(text), sv.tokenizer, sv.embed).value;
            var (s', r) := Ingest(s, u, user, now, extraction, sv, faults);
            && (forall b :: b in s.books ==> b.id != r.value.bookId)
            && s'.books == s.books + [Book(r.value.bookId, u.filename, text, vectors, user, now)]
            && s'.disk == s.disk[PdfPath(u.filename) := PdfFile(u.doc)][EmbeddingPath(u.filename) := EmbeddingFile(vectors)]
            && r.value == UploadReply(UploadedMessage, r.value.bookId, EmbeddingPath(u.filename))
  {
  }

  /** Only the book's two paths can change, and which paths they are
      depends on the file name alone, not on the uploader. */
  lemma OnlyTwoPathsWritten(s: LibraryState, u: Upload, user: nat, now: int, extraction: Result<string, HttpError>, sv: Services, faults: Faults, p: string)
    requires p != PdfPath(u.filename) && p != EmbeddingPath(u.filename)
    ensures var disk' := Ingest(s, u, user, now, extraction, sv, faults).0.disk;
            (p in disk' <==> p in s.disk) && (p in s.disk ==> disk'[p] == s.disk[p])
  {
  }

  /** The duplicate guard is per user, but the paths and the unique file
      name are global: when another user already has a book of this name,
      the upload runs through every stage, overwrites that user's PDF and
      embeddings files, and only then fails at the insert. */
  lemma OtherUsersFileOverwritten(s: LibraryState, u: Upload, user: nat, now: int, extraction: Result<string, HttpError>, sv: Services, faults: Faults, other: Book)
    requires other in s.books && other.filename == u.filename && other.userId != user
    requires u.size <= MaxFileSize && !HasBook(s.books, u.filename, user)
    requires !faults.pdfWrite && !faults.embeddingWrite
    requires extraction.Success?
    requires CreateEmbeddings(Single(extraction.value), sv.tokenizer, sv.embed).Some?
    ensures Ingest(s, u, user, now, extraction, sv, faults).1 == Failure(Unhandled)
    ensures Ingest(s, u, user, now, extraction, sv, faults).0.books == s.books
    ensures Ingest(s, u, user, now, extraction, sv, faults).0.disk[PdfPath(other.filename)] == PdfFile(u.doc)
  {
  }

  /** The books table and the data folder, updated in place by uploads. */
  class Library {
    var books: seq<Book>
    var disk: map<string, StoredFile>

    function State(): LibraryState
      reads this
    {
      LibraryState(books, disk)
    }

    predicate Valid()
      reads this
    {
      TableConstraints(books)
    }

    constructor ()
      ensures books == [] && disk == map[] && Valid()
    {
      books := [];
      disk := map[];
    }

    /** `upload_pdf`: the guards, then the stages in order, each failure
        returning at once. */
    method UploadPdf(u: Upload, user: nat, now: int, sv: Services, faults: Faults)
      returns (r: Result<UploadReply, HttpError>)
      requires Valid()
      modifies this
      ensures Valid()
      ensures (State(), r) == Ingest(old(State()), u, user, now, Extract(u.doc, sv.ocr, DefaultOcrThreshold), sv, faults)
    {
      var filePath := PdfPath(u.filename);
      if u.size > MaxFileSize {
        return Failure(TooLarge);
      }
      if HasBook(books, u.filename, user) {
        return Failure(AlreadyUploaded);
      }
      if faults.pdfWrite {
        return Failure(SaveFileFailed);
      }
      ghost var before := State();
      disk := disk[filePath := PdfFile(u.doc)];
      var text := ExtractTextFromPdf(u.doc, sv.ocr, DefaultOcrThreshold);
      r := FinishUpload(before, u, user, now, text, sv, faults);
    }

    /** The stages after extraction: embed, save the embeddings, insert the
        row. `before` is the state the request started from. */
    method FinishUpload(ghost before: LibraryState, u: Upload, user: nat, now: int,
                        text: Result<string, HttpError>, sv: Services, faults: Faults)
      returns (r: Result<UploadReply, HttpError>)
      requires TableConstraints(before.books) && books == before.books
      requires disk == before.disk[PdfPath(u.filename) := PdfFile(u.doc)]
      requires u.size <= MaxFileSize && !HasBook(before.books, u.filename, user) && !faults.pdfWrite
      modifies this
      ensures Valid()
      ensures (State(), r) == Ingest(before, u, user, now, text, sv, faults)
    {
      IngestKeepsConstraints(before, u, user, now, text, sv, faults);
      if text.Failure? {
        return Failure(text.error);
      }
      var embeddings := CreateEmbeddings(Single(text.value), sv.tokenizer, sv.embed);
      if embeddings.None? {
        return Failure(Unhandled);
      }
      if faults.embeddingWrite {
        return Failure(SaveEmbeddingsFailed);
      }
      disk := disk[EmbeddingPath(u.filename) := EmbeddingFile(embeddings.value)];
      if FilenameTaken(books, u.filename) {
        return Failure(Unhandled);
      }
      var id := NextId(books);
      books := books + [Book(id, u.filename, text.value, embeddings.value, user, now)];
      return Success(UploadReply(UploadedMessage, id, EmbeddingPath(u.filename)));
    }
  }
}
