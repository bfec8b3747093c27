/** The answer-key endpoints of app/api/answer_key_generation.py: upload a
    question paper into the user's part of `data/questions`, and answer the
    questions of the user's latest paper from one of the user's books. */
module AnswerKeyGeneration {
  import opened Outcomes
  import opened Text
  import opened PdfText
  import opened Books
  import opened UserFiles
  import opened AnswerKeyLlm

  const AlreadyUploadedMessage := "Question paper already uploaded!"
  const UploadedMessage := "Question paper uploaded successfully!"
  const SaveFailed := HttpError(500, "Error saving file")

  const BookNotFound := HttpError(404, "Book not found.")
  const NoQuestionPaper := HttpError(404, "No question paper found for the current user.")
  const NoQuestions := HttpError(400, "No questions found in the question paper.")

  /** The JSON body of an upload: a message and the stored name. */
  datatype UploadReply = UploadReply(message: string, filename: string)

  /** The new folder and the response of `upload_question_paper`. */
  function UploadPaper(files: map<string, StoredPaper>, user: nat, filename: string, doc: Document,
                       now: int, writeFails: bool): (map<string, StoredPaper>, Result<UploadReply, HttpError>)
  {
    var name := UniqueName(user, filename);
    if name in files then (files, Success(UploadReply(AlreadyUploadedMessage, name)))
    else if writeFails then (files, Failure(SaveFailed))
    else (files[name := StoredPaper(doc, now)], Success(UploadReply(UploadedMessage, name)))
  }

  /** The stored name is the user id, "_", then the file name. An existing
      name is answered "already uploaded" with nothing written; otherwise
      the paper is written once under that name, or a failed write is a 500
      with nothing written. No other name is touched. */
  lemma UploadPaperCases(files: map<string, StoredPaper>, user: nat, filename: string, doc: Document,
                         now: int, writeFails: bool)
    ensures var name := NatToString(user) + "_" + filename;
            var (files', r) := UploadPaper(files, user, filename, doc, now, writeFails);
            && (name in files ==> files' == files && r == Success(UploadReply(AlreadyUploadedMessage, name)))
            && (name !in files && writeFails ==> files' == files && r == Failure(SaveFailed))
            && (name !in files && !writeFails ==>
                  files' == files[name := StoredPaper(doc, now)] && r == Success(UploadReply(UploadedMessage, name)))
  {
  }

  /** Uploading again is idempotent: once a paper is stored, a second upload
      of the same file name by the same user, whatever its content and time,
      changes nothing and gives back the same stored name. */
  lemma ReuploadIdempotent(files: map<string, StoredPaper>, user: nat, filename: string, doc: Document,
                           now: int, writeFails: bool, doc2: Document, now2: int, writeFails2: bool)
    requires UploadPaper(files, user, filename, doc, now, writeFails).1.Success?
    ensures var (files1, r1) := UploadPaper(files, user, filename, doc, now, writeFails);
            var (files2, r2) := UploadPaper(files1, user, filename, doc2, now2, writeFails2);
            files2 == files1 && r2 == Success(UploadReply(AlreadyUploadedMessage, r1.value.filename))
  {
  }

  /** `upload_question_paper`: check for the stored name, write only when it
      is absent. */
  method UploadQuestionPaper(folder: Folder, user: nat, filename: string, doc: Document, now: int, writeFails: bool)
    returns (r: Result<UploadReply, HttpError>)
    modifies folder
    ensures (folder.files, r) == UploadPaper(old(folder.files), user, filename, doc, now, writeFails)
  {
    var name := UniqueName(user, filename);
    if name in folder.files {
      return Success(UploadReply(AlreadyUploadedMessage, name));
    }
    var saved := folder.Save(name, doc, now, writeFails);
    if !saved {
      return Failure(SaveFailed);
    }
    return Success(UploadReply(UploadedMessage, name));
  }

  /** `name` is one of the user's papers with the latest modification time. */
  predicate IsLatestPaper(files: map<string, StoredPaper>, user: nat, name: string) {
    && name in files
    && UserPrefix(user) <= name
    && forall n :: n in files && UserPrefix(user) <= n ==> files[n].mtime <= files[name].mtime
  }

  /** The glob "<user id>_*" and `max(..., key=os.path.getmtime)`: the names
      are visited in no particular order, and the first one with the
      greatest modification time is kept. */
  method SelectLatestPaper(files: map<string, StoredPaper>, user: nat) returns (r: Option<string>)
    ensures r.None? <==> forall n :: n in files ==> !(UserPrefix(user) <= n)
    ensures r.Some? ==> IsLatestPaper(files, user, r.value)
  {
    var prefix := UserPrefix(user);
    var remaining := files.Keys;
    r := None;
    while remaining != {}
      invariant remaining <= files.Keys
      invariant r.None? ==> forall n :: n in files && n !in remaining ==> !(prefix <= n)
      invariant r.Some? ==> r.value in files && prefix <= r.value
      invariant r.Some? ==> forall n :: n in files && n !in remaining && prefix <= n ==> files[n].mtime <= files[r.value].mtime
      decreases remaining
    {
      var n :| n in remaining;
      remaining := remaining - {n};
      if prefix <= n && (r.None? || files[n].mtime > files[r.value].mtime) {
        r := Some(n);
      }
    }
  }

  /** The questions of a paper: its lines, stripped, blank ones dropped. */
  function PaperQuestions(text: string): (questions: seq<string>)
    ensures forall k :: 0 <= k < |questions| ==> questions[k] != "" && IsTrimmed(questions[k])
  {
    StrippedLonger(Split(text, "\n"), 0)
  }

  /** The questions are exactly the stripped non-blank lines. */
  lemma PaperQuestionsAreLines(text: string, q: string)
    ensures q in PaperQuestions(text) <==> exists line :: line in Split(text, "\n") && q == Strip(line) && q != ""
  {
    StrippedLongerMembers(Split(text, "\n"), 0, q);
  }

  /** There are no questions exactly when every line is blank. */
  lemma NoQuestionsIffBlankLines(text: string)
    ensures PaperQuestions(text) == [] <==> forall line :: line in Split(text, "\n") ==> Strip(line) == ""
  {
    var lines := Split(text, "\n");
    if PaperQuestions(text) == [] {
      forall line | line in lines ensures Strip(line) == "" {
        StrippedLongerMembers(lines, 0, Strip(line));
      }
    } else {
      StrippedLongerMembers(lines, 0, PaperQuestions(text)[0]);
    }
  }

  /** What `generate_answer_key` answers once the book and the paper are
      known, given what extracting the paper gives. An HTTP error of the
      extraction is not a RuntimeError and reaches the client unchanged. */
  function AnswerKeyFromPaper(book: Book, extraction: Result<string, HttpError>, model: AnswerModel)
    : Result<seq<QuestionAnswer>, HttpError>
  {
    match extraction
    case Failure(e) => Failure(e)
    case Success(text) =>
      var questions := PaperQuestions(text);
      if questions == [] then Failure(NoQuestions)
      else match Answers(book.textContent, questions, model)
        case Failure(detail) => Failure(HttpError(500, detail))
        case Success(answers) => Success(answers)
  }

  /** The answers, when there are any, answer the paper's questions one by
      one, in order, each with the stripped reply to that question about the
      first 4000 characters of the book; the key fails with the 500 exactly
      when one of those calls fails. A paper whose lines are all blank is a
      400 and no question is sent to the model. */
  lemma AnswerKeyAnswersQuestions(book: Book, extraction: Result<string, HttpError>, model: AnswerModel)
    ensures extraction.Failure? ==> AnswerKeyFromPaper(book, extraction, model) == Failure(extraction.error)
    ensures extraction.Success? && PaperQuestions(extraction.value) == [] ==>
              AnswerKeyFromPaper(book, extraction, model) == Failure(NoQuestions)
    ensures var r := AnswerKeyFromPaper(book, extraction, model);
            r.Success? ==>
              && extraction.Success?
              && |r.value| == |PaperQuestions(extraction.value)| > 0
              && forall i :: 0 <= i < |r.value| ==>
                   var q := PaperQuestions(extraction.value)[i];
                   r.value[i] == QuestionAnswer(q, Strip(model(Prefix(book.textContent, BookContextChars), q).value))
    ensures extraction.Success? && PaperQuestions(extraction.value) != [] ==>
              var questions := PaperQuestions(extraction.value);
              var context := Prefix(book.textContent, BookContextChars);
              var r := AnswerKeyFromPaper(book, extraction, model);
              && (r.Failure? <==> exists i :: 0 <= i < |questions| && model(context, questions[i]).None?)
              && (r.Failure? ==> r == Failure(HttpError(500, GenerateAnswerFailed)))
  {
    if extraction.Success? {
      AnswersPairQuestions(book.textContent, PaperQuestions(extraction.value), model);
    }
  }

  /** `generate_answer_key`: the book first (404), then the user's latest
      question paper (404), then its questions (400 when there are none),
      then one answer per question (500 when a call fails). */
  method GenerateAnswerKey(books: seq<Book>, folder: Folder, bookId: int, user: nat, ocr: OcrEngine, model: AnswerModel)
    returns (r: Result<seq<QuestionAnswer>, HttpError>)
    ensures BookById(books, bookId, user).None? ==> r == Failure(BookNotFound)
    ensures BookById(books, bookId, user).Some? && (forall n :: n in folder.files ==> !(UserPrefix(user) <= n)) ==>
              r == Failure(NoQuestionPaper)
    ensures BookById(books, bookId, user).Some? && (exists n :: n in folder.files && UserPrefix(user) <= n) ==>
              exists name :: IsLatestPaper(folder.files, user, name) &&
                r == AnswerKeyFromPaper(BookById(books, bookId, user).value,
                                        Extract(folder.files[name].doc, ocr, DefaultOcrThreshold), model)
  {
    var book := BookById(books, bookId, user);
    if book.None? {
      return Failure(BookNotFound);
    }
    var paper := SelectLatestPaper(folder.files, user);
    if paper.None? {
      return Failure(NoQuestionPaper);
    }
    var text := ExtractTextFromPdf(folder.files[paper.value].doc, ocr, DefaultOcrThreshold);
    r := AnswerKeyAfterExtraction(book.value, text, model);
  }

  /** The part of `generate_answer_key` after the extraction. */
  method AnswerKeyAfterExtraction(book: Book, text: Result<string, HttpError>, model: AnswerModel)
    returns (r: Result<seq<QuestionAnswer>, HttpError>)
    ensures r == AnswerKeyFromPaper(book, text, model)
  {
    if text.Failure? {
      return Failure(text.error);
    }
    var questions := PaperQuestions(text.value);
    if questions == [] {
      return Failure(NoQuestions);
    }
    var answers := GenerateAnswersFromBook(book.textContent, questions, model);
    if answers.Failure? {
      return Failure(HttpError(500, answers.error));
    }
    return Success(answers.value);
  }
}
