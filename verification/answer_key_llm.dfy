/** The chat-model helpers of app/llm/answer_key_llm.py. The model is a
    function parameter that receives the variable parts of the prompt and
    gives the reply's content, or `None` when the call raises. The fixed
    prompt texts are not modelled. */
module AnswerKeyLlm {
  import opened Outcomes
  import opened Text

  /** How much of the book goes into every prompt. */
  const BookContextChars: nat := 4000

  /** The shortest question kept is 6 characters long after stripping. */
  const MinQuestionChars: nat := 5

  const ExtractQuestionsFailed := "Error extracting questions"
  const GenerateAnswerFailed := "Error generating answer"

  /** The model asked for the questions in a book excerpt. */
  type QuestionModel = string -> Option<string>

  /** The model asked to answer a question from a book excerpt
      (excerpt, question). */
  type AnswerModel = (string, string) -> Option<string>

  datatype QuestionAnswer = QuestionAnswer(question: string, answer: string)

  /** `extract_questions_from_book(book_text)`: ask for questions about the
      first 4000 characters, then keep the reply's lines that are longer than
      5 characters once stripped, stripped. A failed call is a RuntimeError. */
  function ExtractQuestionsFromBook(bookText: string, model: QuestionModel): (r: Result<seq<string>, string>)
    ensures r.Failure? <==> model(Prefix(bookText, BookContextChars)).None?
    ensures r.Failure? ==> r.error == ExtractQuestionsFailed
    ensures r.Success? ==> forall k :: 0 <= k < |r.value| ==> |r.value[k]| > MinQuestionChars && IsTrimmed(r.value[k])
  {
    match model(Prefix(bookText, BookContextChars))
    case None => Failure(ExtractQuestionsFailed)
    case Some(reply) => Success(StrippedLonger(Split(reply, "\n"), MinQuestionChars))
  }

  /** The questions are exactly the stripped reply lines longer than 5
      characters: no other text, and none of those left out. */
  lemma ExtractedQuestionsAreLines(bookText: string, model: QuestionModel, q: string)
    requires model(Prefix(bookText, BookContextChars)).Some?
    ensures var lines := Split(model(Prefix(bookText, BookContextChars)).value, "\n");
            q in ExtractQuestionsFromBook(bookText, model).value <==>
              exists line :: line in lines && q == Strip(line) && |q| > MinQuestionChars
  {
    StrippedLongerMembers(Split(model(Prefix(bookText, BookContextChars)).value, "\n"), MinQuestionChars, q);
  }

  /** Only the first 4000 characters of the book matter. */
  lemma QuestionsUseBookPrefix(bookText: string, more: string, model: QuestionModel)
    requires |bookText| >= BookContextChars
    ensures ExtractQuestionsFromBook(bookText + more, model) == ExtractQuestionsFromBook(bookText, model)
  {
    assert Prefix(bookText + more, BookContextChars) == Prefix(bookText, BookContextChars);
  }

  /** The answer to one question: the question as given and the stripped
      reply. */
  function AnswerFor(context: string, model: AnswerModel, question: string): (r: Option<QuestionAnswer>)
    ensures r.Some? <==> model(context, question).Some?
    ensures r.Some? ==> r.value.question == question && r.value.answer == Strip(model(context, question).value)
  {
    match model(context, question)
    case None => None
    case Some(reply) => Some(QuestionAnswer(question, Strip(reply)))
  }

  /** The per-question step of the answer loop, as a function value. */
  function AnswerStep(context: string, model: AnswerModel): string -> Option<QuestionAnswer> {
    q => AnswerFor(context, model, q)
  }

  /** What `generate_answers_from_book(book_text, questions)` returns: one
      answer per question in order, or the RuntimeError of the first failed
      call. */
  function Answers(bookText: string, questions: seq<string>, model: AnswerModel): Result<seq<QuestionAnswer>, string> {
    var context := Prefix(bookText, BookContextChars);
    match MapUntilFailure(questions, AnswerStep(context, model))
    case Failure(_) => Failure(GenerateAnswerFailed)
    case Success(answers) => Success(answers)
  }

  /** One answer per question, in question order, each pairing the question
      unchanged with the stripped reply; it fails exactly when one of the
      calls fails, and then nothing partial is returned. */
  lemma AnswersPairQuestions(bookText: string, questions: seq<string>, model: AnswerModel)
    ensures var context := Prefix(bookText, BookContextChars);
            Answers(bookText, questions, model).Failure? <==>
              exists i :: 0 <= i < |questions| && model(context, questions[i]).None?
    ensures var context := Prefix(bookText, BookContextChars);
            var r := Answers(bookText, questions, model);
            r.Success? ==>
              && |r.value| == |questions|
              && forall i :: 0 <= i < |questions| ==>
                   r.value[i] == QuestionAnswer(questions[i], Strip(model(context, questions[i]).value))
  {
    var context := Prefix(bookText, BookContextChars);
    MapUntilFailureFirst(questions, AnswerStep(context, model));
  }

  /** The per-question loop of `generate_answers_from_book`. */
  method GenerateAnswersFromBook(bookText: string, questions: seq<string>, model: AnswerModel)
    returns (r: Result<seq<QuestionAnswer>, string>)
    ensures r == Answers(bookText, questions, model)
  {
    var context := Prefix(bookText, BookContextChars);
    ghost var step := AnswerStep(context, model);
    var answers: seq<QuestionAnswer> := [];
    var i := 0;
    while i < |questions|
      invariant 0 <= i <= |questions|
      invariant MapPrefix(questions, step, i) == Success(answers)
    {
      var reply := model(context, questions[i]);
      if reply.None? {
        MapPrefixStops(questions, step, i + 1, |questions|);
        return Failure(GenerateAnswerFailed);
      }
      var answer := QuestionAnswer(questions[i], Strip(reply.value));
      assert step(questions[i]) == Some(answer);
      answers := answers + [answer];
      i := i + 1;
    }
    return Success(answers);
  }
}
