/** The syllabus endpoints of app/api/syllabus_summary.py: upload a syllabus
    into the user's part of `data/syllabus` and list its topics; summarise
    topics from one of the user's books. */
module SyllabusSummary {
  import opened Outcomes
  import opened Text
  import opened PdfText
  import opened Books
  import opened UserFiles
  import opened SyllabusLlm

  const SaveFailed := HttpError(500, "Error saving file")
  /** `extract_syllabus_text` turns every failure, an HTTP error of the
      extraction included, into one RuntimeError. */
  const ExtractTextFailed := HttpError(500, "Error extracting text")
  const NoTopics := HttpError(400, "No topics provided for summarization.")
  const BookNotFound := HttpError(404, "Book not found.")

  /** `extract_syllabus_text`: the extracted text, refused when it is blank. */
  function SyllabusText(extraction: Result<string, HttpError>): (r: Result<string, HttpError>)
    ensures r.Success? <==> extraction.Success? && !IsBlank(extraction.value)
    ensures r.Success? ==> r.value == extraction.value
    ensures r.Failure? ==> r.error == ExtractTextFailed
  {
    match extraction
    case Failure(_) => Failure(ExtractTextFailed)
    case Success(text) =>
      StripBlank(text);
      if Strip(text) == "" then Failure(ExtractTextFailed) else Success(text)
  }

  /** What `upload_syllabus_and_extract_topics` answers once the stored
      file is extracted: the topics, or a 500 for any failure. */
  function TopicsFromExtraction(extraction: Result<string, HttpError>, model: TopicModel): Result<seq<string>, HttpError> {
    match SyllabusText(extraction)
    case Failure(e) => Failure(e)
    case Success(text) =>
      match ExtractSyllabusTopics(text, model)
      case Failure(detail) => Failure(HttpError(500, detail))
      case Success(topics) => Success(topics)
  }

  /** Every failure of the upload's processing is a 500; the topics come
      from a non-blank text and are non-empty stripped lines. */
  lemma TopicsFailuresAre500(extraction: Result<string, HttpError>, model: TopicModel)
    ensures TopicsFromExtraction(extraction, model).Failure? ==> TopicsFromExtraction(extraction, model).error.status == 500
    ensures TopicsFromExtraction(extraction, model).Success? ==>
              && extraction.Success? && !IsBlank(extraction.value)
              && forall k :: 0 <= k < |TopicsFromExtraction(extraction, model).value| ==>
                   TopicsFromExtraction(extraction, model).value[k] != ""
  {
  }

  /** `upload_syllabus_and_extract_topics`: write the syllabus only when
      its stored name is absent, then — whether or not it was written — extract
      the file stored under that name and ask for its topics. A re-upload
      therefore processes the file stored first, not the new content. */
  method UploadSyllabusAndExtractTopics(folder: Folder, user: nat, filename: string, doc: Document, now: int,
                                        writeFails: bool, ocr: OcrEngine, model: TopicModel)
    returns (r: Result<seq<string>, HttpError>)
    modifies folder
    ensures var name := UniqueName(user, filename);
            name in old(folder.files) ==>
              folder.files == old(folder.files) &&
              r == TopicsFromExtraction(Extract(old(folder.files)[name].doc, ocr, DefaultOcrThreshold), model)
    ensures var name := UniqueName(user, filename);
            name !in old(folder.files) && writeFails ==>
              folder.files == old(folder.files) && r == Failure(SaveFailed)
    ensures var name := UniqueName(user, filename);
            name !in old(folder.files) && !writeFails ==>
              folder.files == old(folder.files)[name := StoredPaper(doc, now)] &&
              r == TopicsFromExtraction(Extract(doc, ocr, DefaultOcrThreshold), model)
  {
    var name := UniqueName(user, filename);
    if name !in folder.files {
      var saved := folder.Save(name, doc, now, writeFails);
      if !saved {
        return Failure(SaveFailed);
      }
    }
    var text := ExtractTextFromPdf(folder.files[name].doc, ocr, DefaultOcrThreshold);
    r := TopicsFromExtraction(text, model);
  }

  /** `summarize_syllabus`: no topics is a 400 before any book is looked up;
      then the selected book (404 when there is none); then one summary per
      topic (500 naming the topic whose call failed). */
  function SummarizeSyllabus(books: seq<Book>, topics: seq<string>, summaryType: string, bookId: Option<int>,
                             user: nat, model: SummaryModel): (r: Result<seq<TopicSummary>, HttpError>)
    ensures topics == [] ==> r == Failure(NoTopics)
    ensures topics != [] && SelectBook(books, bookId, user).None? ==> r == Failure(BookNotFound)
  {
    if topics == [] then Failure(NoTopics)
    else match SelectBook(books, bookId, user)
      case None => Failure(BookNotFound)
      case Some(book) =>
        match Summaries(book.textContent, topics, summaryType, model)
        case Failure(detail) => Failure(HttpError(500, detail))
        case Success(summaries) => Success(summaries)
  }

  /** The empty-topics check does not depend on the table or the book id.
      Otherwise the answer is the summaries of the selected book of this
      user — the given book when `book_id` is truthy, the latest one
      otherwise — with a failed call turned into a 500: a successful summary
      has one entry per topic, in order, each the stripped reply for that
      topic and the first 4000 characters of that book. */
  lemma SummarizeUsesSelectedBook(books: seq<Book>, otherBooks: seq<Book>, topics: seq<string>, summaryType: string,
                                  bookId: Option<int>, otherId: Option<int>, user: nat, model: SummaryModel)
    ensures topics == [] ==>
              SummarizeSyllabus(books, topics, summaryType, bookId, user, model) ==
              SummarizeSyllabus(otherBooks, topics, summaryType, otherId, user, model)
    ensures var r := SummarizeSyllabus(books, topics, summaryType, bookId, user, model);
            r.Success? ==>
              && SelectBook(books, bookId, user).Some?
              && SelectBook(books, bookId, user).value.userId == user
              && (!Truthy(bookId) ==> SelectBook(books, bookId, user) == LatestBook(books, user))
              && |r.value| == |topics|
              && forall i :: 0 <= i < |topics| ==>
                   r.value[i] == TopicSummary(topics[i], Strip(model(topics[i], Lines(summaryType),
                                   Prefix(SelectBook(books, bookId, user).value.textContent, ContextChars)).value))
    ensures topics != [] && SelectBook(books, bookId, user).Some? ==>
              var summaries := Summaries(SelectBook(books, bookId, user).value.textContent, topics, summaryType, model);
              var r := SummarizeSyllabus(books, topics, summaryType, bookId, user, model);
              && (summaries.Success? ==> r == Success(summaries.value))
              && (summaries.Failure? ==> r == Failure(HttpError(500, summaries.error)))
  {
    if topics != [] && SelectBook(books, bookId, user).Some? {
      SummariesPerTopic(SelectBook(books, bookId, user).value.textContent, topics, summaryType, model);
    }
  }
}
