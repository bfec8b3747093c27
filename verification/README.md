# Personalized Learning System backend — a verified Dafny model

This project models the core of the FastAPI backend of the Personalized
Learning System:

- **the book upload** (`upload_pdf`);
- **text extraction from a PDF** (`extract_text_from_pdf`): a text layer capped
  at 500 pages, then OCR over every page when the stripped text is shorter
  than the threshold;
- **the token chunker and embedding call** (`chunk_text`, `create_embeddings`);
- **the per-user uploads** of question papers and syllabi, and the answer-key
  and syllabus-summary endpoints built on them;
- **the chat-model helpers** that shape replies into topics, questions,
  answers, summaries and keywords;
- **the research-paper search** (Crossref) and **the web search** (Serper).

One Dafny module per source file, plus three shared ones:

- `Outcomes`: `Option`, `Result`, the HTTP error an endpoint answers with, and
  `MapUntilFailure` — a loop that appends one result per item and re-raises
  the first failure.
- `Text`: Python's `strip`, `split`, `join`, `in`, `s[:n]` and `str(n)`.
- `Books`: the `books` table and its by-id / latest lookups.

What the code does step by step stays imperative here:

- The upload is a method of the class `Library`. It holds the `books` rows and
  the files under `data/`, and its result is proved equal to the function
  `Ingest`.
- The question and syllabus folders are a class `Folder` that maps a stored
  name to its content and modification time.
- The page loop, the OCR loop, the per-topic and per-question loops, the
  Crossref item loop, the search-result loop and the latest-paper selection
  are methods with loop invariants. Each is proved equal to a specification
  function (or, for the latest paper, to the defining property of a maximum).
- The properties are lemmas about those functions.

Foreign code is a parameter. Nothing is assumed about what it returns, beyond
the shape of its reply:

- the tokenizer;
- the embedding service;
- the PDF text layer and page renderer (given as what they yield per page);
- the OCR engine;
- the chat model (given the variable parts of its prompt; `None` when the call
  raises);
- Crossref and Serper (given as the status and the fields of a JSON reply;
  a request or a JSON decode that raises is not modelled);
- file writes that raise (booleans);
- the clock (a `now` parameter).

Notable behaviour the model keeps, as written in the code:

- The OCR branch returns its stripped text even when it is empty. The
  "empty document" 400 is therefore reachable only on the text-layer branch,
  and with the threshold every caller uses (100) it cannot happen at all.
  A reading in which the empty check also covers the OCR result is not what
  the code does.
- The answer-key endpoint catches only `RuntimeError`. An HTTP error from the
  extraction reaches the client unchanged. The syllabus upload, by contrast,
  wraps every extraction failure into one 500 "Error extracting text".
- A syllabus re-upload under an existing stored name does not write. It
  processes the file stored first, not the new content.
- The duplicate guard of the book upload is per user. The file paths and the
  unique `filename` column are global. So an upload of a name another user
  already has overwrites that user's PDF and embeddings files, then fails at
  the insert (`OtherUsersFileOverwritten`).
- A Crossref item whose `title` is an empty list makes `[0]` raise. The
  request then ends in the framework's 500.
- The web search computes a `source` per result, but the response schema has
  no such field, so it is dropped. A link is skipped when it contains "ads"
  anywhere, ".../downloads" included.

## Model

| member | source | states |
|---|---|---|
| `Embeddings.Windows` | app/llm/embeddings.py:13 | the token windows of `range(0, len(tokens), max_tokens)`: the first `max_tokens` tokens, then the windows of the rest |
| `Embeddings.WindowsBounded` | app/llm/embeddings.py:13 | every token window holds between 1 and `max_tokens` tokens, and every window but the last holds exactly `max_tokens` |
| `Embeddings.WindowsPartition` | app/llm/embeddings.py:13 | the windows concatenated in order are exactly the token sequence: no gap, no overlap |
| `Embeddings.WindowsCount` | app/llm/embeddings.py:13-14 | the number of windows is ceil(len(tokens) / max_tokens); no tokens give no windows |
| `Embeddings.WindowAt` | app/llm/embeddings.py:13 | window k is the slice `tokens[k*m:(k+1)*m]`, cut at the end as Python slicing does |
| `Embeddings.InputText` | app/llm/embeddings.py:7-8 | a list input is joined with single spaces before encoding; a string is used as it is |
| `Embeddings.ChunkText` | app/llm/embeddings.py:5-14 | one decoded string per token window, in window order |
| `Embeddings.CreateEmbeddings` | app/llm/embeddings.py:16-27 | one call to the embedding service with the 512-token chunks of the input; its reply, or none when the call raises |
| `Embeddings.EmbeddingCount` | app/llm/embeddings.py:16-27 | the service is called once with the 512-token chunks; when it returns one vector per chunk there are ceil(tokens / 512) vectors |
| `PdfText.Extract` | app/db/crud/pdf_crud.py:33-77 | what `extract_text_from_pdf` returns: the stripped direct text when it reaches the threshold; below it the OCR outcome; the 400 "empty" error only when the direct text is blank and still reaches the threshold |
| `PdfText.LayerText` | app/db/crud/pdf_crud.py:45-51 | the direct text of the first n pages: each page's text followed by "\n" when non-empty; a fault when some page raises |
| `PdfText.DirectText` | app/db/crud/pdf_crud.py:41-51 | the text of the first min(pages, 500) pages, or "" when the document cannot be opened or a page raises |
| `PdfText.PagesRead` | app/db/crud/pdf_crud.py:44 | the text layer is read for min(page count, 500) pages |
| `PdfText.DirectTextIgnoresLaterPages` | app/db/crud/pdf_crud.py:44-45 | pages after the 500th never affect the direct text |
| `PdfText.LayerTextPrefix` | app/db/crud/pdf_crud.py:45-48 | the text of the first n pages depends on those pages only |
| `PdfText.LayerTextPages` | app/db/crud/pdf_crud.py:45-48 | without faults, page i adds its text and "\n" (nothing when its text is empty), in page order |
| `PdfText.LayerTextFault` | app/db/crud/pdf_crud.py:45-51 | once a page raises, the text-layer read of every longer prefix is a fault |
| `PdfText.FaultEmptiesDirectText` | app/db/crud/pdf_crud.py:49-51 | a page that raises among the pages read resets the direct text to "" instead of failing |
| `PdfText.ReadTextLayer` | app/db/crud/pdf_crud.py:41-51 | the page loop computes exactly the direct text |
| `PdfText.DropAlpha` | app/db/crud/pdf_crud.py:63-66 | an image with 4 or more channels keeps its first 3 channels of every pixel; others pass unchanged |
| `PdfText.OcrText` | app/db/crud/pdf_crud.py:59-69 | the OCR text of the first n pages: each page's paragraphs joined by " ", then "\n"; a fault when a page raises |
| `PdfText.OcrOutcome` | app/db/crud/pdf_crud.py:54-72 | the stripped OCR text of every page, or the 500 when opening, rendering or reading raises |
| `PdfText.OcrTextPrefix` | app/db/crud/pdf_crud.py:59-69 | the OCR text of the first n pages depends on those pages only |
| `PdfText.OcrReadsEveryPage` | app/db/crud/pdf_crud.py:59-69 | OCR has no page cap: any further page appends its paragraphs joined by " " and "\n", or the whole OCR fails |
| `PdfText.OcrTextFault` | app/db/crud/pdf_crud.py:59-72 | once a page's OCR raises, OCR of every longer prefix fails |
| `PdfText.RunOcr` | app/db/crud/pdf_crud.py:54-72 | the OCR loop computes exactly the OCR outcome: stripped text, or 500 at the first fault |
| `PdfText.ExtractTextFromPdf` | app/db/crud/pdf_crud.py:33-77 | the whole extraction computes exactly `Extract` |
| `PdfText.DirectTextSuffices` | app/db/crud/pdf_crud.py:53-77 | when the stripped direct text reaches the threshold, OCR is not used: the result is that text, whatever the renderer and engine |
| `PdfText.OcrWhenShort` | app/db/crud/pdf_crud.py:53-70 | when the stripped direct text is below the threshold the result is the OCR outcome, and the direct text no longer matters |
| `PdfText.BlankOcrIsSuccess` | app/db/crud/pdf_crud.py:70 | a blank OCR result is returned as the success "" |
| `PdfText.EmptyErrorNeedsNonPositiveThreshold` | app/db/crud/pdf_crud.py:53-75 | the 400 "empty" error needs a threshold of at most 0, so it never happens with the default 100 |
| `PdfText.ExtractedTextIsStripped` | app/db/crud/pdf_crud.py:70-77 | every successful extraction is already stripped |
| `Books.BookById` | app/db/crud/research_crud.py:5-10 | the row found has that id and belongs to that user; none is found exactly when no such row exists |
| `Books.LatestBook` | app/db/crud/research_crud.py:12-17 | the row found is the user's and has the greatest upload time among the user's rows; none exactly when the user has no rows |
| `Books.SelectBook` | app/api/research_papers.py:21-24 | the selected book always belongs to the current user |
| `Books.SelectBookCases` | app/api/syllabus_summary.py:58-64 | a truthy `book_id` selects that id only; a missing or 0 id selects the latest book; nothing is found only when the id matches no row of the user, or the user has no book |
| `Books.BookByIdUnique` | app/models/book.py:8-9 | with unique ids, the lookup finds the only matching row whatever the row order |
| `PdfProcessing.Ingest` | app/api/pdf_processing.py:28-76 | the new table, files and response of one upload: size guard, per-user duplicate guard, PDF write, extraction, embedding, embeddings write, row insert, each failure ending the request |
| `PdfProcessing.PathJoin` | app/api/pdf_processing.py:38-39 | `os.path.join`: a file name starting with "/" replaces the folder; otherwise folder, "/", name |
| `PdfProcessing.NextId` | app/models/book.py:8 | a new row's id differs from every existing id |
| `PdfProcessing.IngestKeepsConstraints` | app/models/book.py:8-9 | an upload keeps ids and file names unique in the table |
| `PdfProcessing.SizeGuardFirst` | app/api/pdf_processing.py:41-47 | a file over 200*1024*1024 bytes is refused with 400 before anything else; at or under the limit the size changes nothing |
| `PdfProcessing.DuplicateRejected` | app/api/pdf_processing.py:49-55 | the same file name by the same user is refused with 400, nothing written or added |
| `PdfProcessing.FailureKeepsTable` | app/api/pdf_processing.py:57-70 | after any failure the table is unchanged; a guard or PDF-write failure changes nothing, later failures leave the PDF written |
| `PdfProcessing.SuccessAppendsOne` | app/api/pdf_processing.py:58-76 | success appends exactly one row (name, extracted text, its embeddings, user, time) under a fresh id, writes both files and answers with that id and the embeddings path |
| `PdfProcessing.OnlyTwoPathsWritten` | app/api/pdf_processing.py:38-39 | only the path strings `books/<name>` and `embeddings/<name>.pkl` can change, and they depend on the file name alone |
| `PdfProcessing.OtherUsersFileOverwritten` | app/api/pdf_processing.py:38-70 | a name another user already has passes the guard, overwrites that user's PDF, then fails with 500 with the table unchanged |
| `PdfProcessing.Library.UploadPdf` | app/api/pdf_processing.py:28-76 | the upload's new table, files and response are exactly `Ingest` of the old state, and the table constraints hold |
| `PdfProcessing.Library.FinishUpload` | app/api/pdf_processing.py:63-76 | the stages after extraction complete `Ingest` from the state the request started in |
| `UserFiles.UserPrefix` | app/api/answer_key_generation.py:55 | the glob prefix is decimal digits followed by "_" |
| `UserFiles.UniqueName` | app/api/answer_key_generation.py:26 | the stored name is the user's prefix followed by the original file name |
| `UserFiles.PrefixOwnsName` | app/api/answer_key_generation.py:55-56 | a user's prefix matches a stored name exactly when it is that user's upload ("1_" does not match "12_x") |
| `UserFiles.UniqueNameInjective` | app/api/syllabus_summary.py:24 | two uploads share a stored name only for the same user and the same file name |
| `UserFiles.Folder.Save` | app/db/crud/answer_key_crud.py:11-23 | a write stores the content with the current time under the name; a write that raises stores nothing and reports failure |
| `AnswerKeyGeneration.UploadPaper` | app/api/answer_key_generation.py:14-37 | the new folder and the response of one question-paper upload |
| `AnswerKeyGeneration.UploadPaperCases` | app/api/answer_key_generation.py:26-37 | existing name: "already uploaded", nothing written; otherwise one write and "uploaded successfully", or 500 with nothing written; the name returned is "<id>_<file name>" |
| `AnswerKeyGeneration.ReuploadIdempotent` | app/api/answer_key_generation.py:29-31 | once stored, a second upload of the same name changes nothing and returns the same stored name |
| `AnswerKeyGeneration.UploadQuestionPaper` | app/api/answer_key_generation.py:14-37 | the endpoint's folder update and response are exactly `UploadPaper` |
| `AnswerKeyGeneration.SelectLatestPaper` | app/api/answer_key_generation.py:54-60 | none exactly when no stored name has the user's prefix; otherwise a name of the user with the greatest modification time |
| `AnswerKeyGeneration.PaperQuestions` | app/api/answer_key_generation.py:65 | every question is non-empty and stripped |
| `AnswerKeyGeneration.PaperQuestionsAreLines` | app/api/answer_key_generation.py:65 | the questions are exactly the stripped non-blank lines of the text |
| `AnswerKeyGeneration.NoQuestionsIffBlankLines` | app/api/answer_key_generation.py:65-70 | there are no questions exactly when every line is blank |
| `AnswerKeyGeneration.AnswerKeyFromPaper` | app/api/answer_key_generation.py:62-78 | the answer key once book and paper are known: the extraction error unchanged, 400 for no questions, 500 for a failed call, otherwise the answers |
| `AnswerKeyGeneration.AnswerKeyAnswersQuestions` | app/api/answer_key_generation.py:62-78 | an extraction error passes through unchanged; no questions is 400; otherwise the key fails exactly when a call for one of the paper's questions fails, and then with the 500; a success answers the questions one by one, in order, each with the stripped reply about the first 4000 characters of the book |
| `AnswerKeyGeneration.GenerateAnswerKey` | app/api/answer_key_generation.py:39-78 | 404 without the user's book, before the papers are looked at; 404 without a paper; otherwise the key of one of the user's latest papers |
| `AnswerKeyGeneration.AnswerKeyAfterExtraction` | app/api/answer_key_generation.py:62-78 | the part after extraction computes exactly `AnswerKeyFromPaper` |
| `SyllabusSummary.SyllabusText` | app/db/crud/syllabus_crud.py:24-32 | the text is kept exactly when the extraction succeeds with non-blank text; every other case is the one 500 "Error extracting text" |
| `SyllabusSummary.TopicsFromExtraction` | app/api/syllabus_summary.py:34-44 | the topics of the extracted syllabus text, every failure a 500 |
| `SyllabusSummary.TopicsFailuresAre500` | app/api/syllabus_summary.py:34-44 | every failure after the save is a 500; topics come only from non-blank text and are non-empty |
| `SyllabusSummary.UploadSyllabusAndExtractTopics` | app/api/syllabus_summary.py:12-44 | an existing name is not rewritten and its stored file is processed; otherwise one write then processing, or 500 with nothing written |
| `SyllabusSummary.SummarizeSyllabus` | app/api/syllabus_summary.py:46-71 | no topics is 400 before any lookup; no selected book is 404 |
| `SyllabusSummary.SummarizeUsesSelectedBook` | app/api/syllabus_summary.py:53-71 | the empty-topics answer depends on nothing else; otherwise the answer is the summaries of the user's selected book, a failed call a 500; a success has, per topic in order, the stripped reply for that topic and the first 4000 characters of that book |
| `SyllabusLlm.ExtractSyllabusTopics` | app/llm/syllabus_llm.py:10-23 | fails with the topics error exactly when the model call fails; topics are non-empty and stripped |
| `SyllabusLlm.TopicsAreLines` | app/llm/syllabus_llm.py:20-21 | the topics are exactly the stripped non-blank lines of the reply, and a reply split into two blocks of lines gives the topics of the first block followed by those of the second |
| `SyllabusLlm.Lines` | app/llm/syllabus_llm.py:28 | "5 lines" exactly when the summary type is "short", "detailed explanation" otherwise |
| `SyllabusLlm.SummaryFor` | app/llm/syllabus_llm.py:42 | a summary exists exactly when the call succeeds; it carries the topic unchanged and the stripped reply |
| `SyllabusLlm.Summaries` | app/llm/syllabus_llm.py:25-45 | one summary per topic from the first 4000 characters of the book, or the error naming the first topic whose call failed |
| `SyllabusLlm.SummariesPerTopic` | app/llm/syllabus_llm.py:29-45 | one summary per topic in order; otherwise the error names the first failing topic, every earlier call having succeeded |
| `SyllabusLlm.GenerateSyllabusSummary` | app/llm/syllabus_llm.py:25-45 | the loop computes exactly `Summaries` |
| `AnswerKeyLlm.ExtractQuestionsFromBook` | app/llm/answer_key_llm.py:10-24 | fails exactly when the model call fails; every question is stripped and longer than 5 characters |
| `AnswerKeyLlm.ExtractedQuestionsAreLines` | app/llm/answer_key_llm.py:20-22 | the questions are exactly the stripped reply lines longer than 5 characters |
| `AnswerKeyLlm.QuestionsUseBookPrefix` | app/llm/answer_key_llm.py:17 | only the first 4000 characters of the book matter |
| `AnswerKeyLlm.AnswerFor` | app/llm/answer_key_llm.py:41 | an answer exists exactly when the call succeeds; it pairs the question unchanged with the stripped reply |
| `AnswerKeyLlm.Answers` | app/llm/answer_key_llm.py:26-45 | one answer per question from the first 4000 characters of the book, or the error of the first failed call |
| `AnswerKeyLlm.AnswersPairQuestions` | app/llm/answer_key_llm.py:26-45 | fails exactly when some call fails; otherwise one answer per question, in order |
| `AnswerKeyLlm.GenerateAnswersFromBook` | app/llm/answer_key_llm.py:26-45 | the loop computes exactly `Answers` |
| `ResearchLlm.ReplyKeywords` | app/llm/research_llm.py:15-16 | every keyword is non-empty and stripped |
| `ResearchLlm.ExtractKeywordsFromText` | app/llm/research_llm.py:5-18 | fails with the keywords error exactly when the call on the first 4000 characters fails; otherwise the reply's keywords |
| `ResearchLlm.KeywordsArePieces` | app/llm/research_llm.py:15-16 | the keywords are exactly the stripped non-blank pieces between ", ", and no piece holds ", " |
| `ResearchLlm.NoSeparatorOneKeyword` | app/llm/research_llm.py:15 | a non-blank reply without ", " is one keyword: a bare comma does not split |
| `ResearchLlm.PiecesHoldReply` | app/llm/research_llm.py:15 | joining the pieces with ", " gives back the reply |
| `ResearchPapers.GetBookKeywords` | app/api/research_papers.py:14-34 | 404 without a selected book; otherwise its keywords, or 500 when the call fails |
| `ResearchPapers.AuthorNames` | app/api/research_papers.py:74-78 | never more names than authors; when every author has both parts, name k is "family, given" of author k |
| `ResearchPapers.AuthorNamesMembers` | app/api/research_papers.py:74-78 | a name is listed exactly when some author has both parts, formatted "family, given" |
| `ResearchPapers.AuthorNamesAppend` | app/api/research_papers.py:74-78 | author order is kept |
| `ResearchPapers.ToPaper` | app/api/research_papers.py:69-80 | the first title or "No title available", the URL or "", the abstract or "Abstract not available", the author names; no paper exactly when `title` is an empty list |
| `ResearchPapers.ResolveQuery` | app/api/research_papers.py:46-56 | a non-empty query is used as given |
| `ResearchPapers.DefaultQuery` | app/api/research_papers.py:46-56 | a missing or empty query: no latest book is 400; a failed keyword call on it is the 500; no keywords is the 400; otherwise the first keyword, a non-empty stripped string, is the query |
| `ResearchPapers.PapersFromReply` | app/api/research_papers.py:62-85 | the answer once Crossref has replied: 500 for non-200, the framework's 500 for an empty title list, 404 for no items, otherwise the papers and the query |
| `ResearchPapers.Research` | app/api/research_papers.py:36-85 | what `fetch_research_papers` answers: the query settled, then the papers of the Crossref reply for it |
| `ResearchPapers.ResearchShape` | app/api/research_papers.py:58-85 | non-200 is 500, no items is 404; a success echoes the query used and has one paper per item, in order |
| `ResearchPapers.FetchResearchPapers` | app/api/research_papers.py:36-85 | the endpoint computes exactly `Research` |
| `ResearchPapers.ShapePapers` | app/api/research_papers.py:62-85 | the item loop computes exactly `PapersFromReply` |
| `GoogleSearch.IsAdLink` | app/api/google_search.py:38-39 | a link is an ad link when "ads" or "sponsored" occurs anywhere in it |
| `GoogleSearch.Shape` | app/api/google_search.py:32-34 | the response item of a result: its title, link and snippet, or their defaults |
| `GoogleSearch.Search` | app/api/google_search.py:12-46 | what `fetch_search_results` answers: 500 for non-200, otherwise the shaped non-ad results, or 404 when there are none |
| `GoogleSearch.Kept` | app/api/google_search.py:28-41 | no more results are kept than there were |
| `GoogleSearch.KeptMembers` | app/api/google_search.py:30-41 | a result is kept exactly when its link (or "#") contains neither "ads" nor "sponsored", shaped with the defaults |
| `GoogleSearch.KeptInOrder` | app/api/google_search.py:41 | kept results keep the input order |
| `GoogleSearch.KeptEmpty` | app/api/google_search.py:38-44 | nothing is kept exactly when every link is an ad link |
| `GoogleSearch.KeptPrefix` | app/api/google_search.py:31-41 | the items kept from the first n results depend on those results only |
| `GoogleSearch.AdResultDropped` | app/api/google_search.py:38-41 | a result with an ad link leaves no trace: the items are those of the results without it |
| `GoogleSearch.DownloadLinkSkipped` | app/api/google_search.py:38-39 | any link with "/downloads" in it is an ad link, because the test is a substring test |
| `GoogleSearch.SearchCases` | app/api/google_search.py:12-46 | non-200 is 500; no "organic" key is 404; a success lists exactly the shaped non-ad results |
| `GoogleSearch.FetchSearchResults` | app/api/google_search.py:24-46 | the endpoint's loop computes exactly `Search` |

## Left out

- Real PDF parsing, page rendering, pixmap reshaping, EasyOCR, the tiktoken
  tokenizer, the OpenAI chat and embedding calls, Crossref and Serper are
  foreign code. Each is a parameter, and nothing is assumed about what it
  returns beyond the shape of its reply, not even a `decode(encode(x))`
  round trip.
- The tokenizer is total: `encode` always gives tokens and `decode` always
  gives text. tiktoken's `encode` raises on text holding a special token
  such as "<|endoftext|>", which ends the upload in the framework's 500
  after the PDF is written. The model reaches that same answer only through
  an embedding service that raises.
- The prompt texts (app/prompts/prompts.py) are constants the model passes
  around. Only the variable parts of a prompt reach the model parameter.
- Embedding vectors are opaque values. Only their count and order matter.
- Pickling and the bytes written to disk are not modelled: a file holds the
  uploaded document or the vectors.
- A file write that raises is modelled as writing nothing. A partly written
  file is not modelled.
- HTTP error details keep the fixed part of each message. The exception text
  Python interpolates into them is not modelled.
- The check-then-write race on stored names is left out: the model is
  sequential.
- Files are keyed by path string. `os.path.join` does not normalise, and
  neither does `PathJoin`: `..`, `.` and repeated `/` are not resolved. So a
  file name such as `../embeddings/x.pkl` reaches a file the model keeps
  under another key. `OnlyTwoPathsWritten` and `OtherUsersFileOverwritten`
  hold for path strings, not for files on disk, and the files of other users
  that such a name can overwrite are not captured.
- The Crossref and Serper calls are total functions that always give a
  status and a well-formed body. A `requests` call that raises, or
  `response.json()` raising on a 200 reply, ends the request in the
  framework's 500. The model cannot produce that for a 200 reply.
- JWT authentication, password hashing, configuration, database sessions and
  the other routers (question answering, quizzes, study plans) are not part
  of this model. The current user is an id parameter.
- `NextId` allocates ids as the largest id plus one. This is SQLite's
  behaviour for a table without deletions. Only freshness is used.
- `LatestBook`: among rows with the same upload time, the model picks the
  later row. The SQL query leaves that order unspecified.
- `SelectLatestPaper`: among papers with the same greatest modification time,
  which one is used is left open. The code takes the first in glob order,
  which the file system decides.
- `GenerateAnswerKey`: states the answer for one of the user's latest papers,
  for the same reason.
- `EmbeddingCount`: the vector count holds only for a service that returns
  one vector per chunk. The code relies on the service for that.
- Python's `str.isspace` is modelled by the fixed set of white-space
  characters it accepts. Unicode normalisation is not modelled.
