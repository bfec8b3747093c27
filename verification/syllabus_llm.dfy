/** The chat-model helpers of app/llm/syllabus_llm.py: topics from a
    syllabus, and one summary per topic from a book. The model is a function
    parameter receiving the variable parts of the prompt; `None` is a call
    that raises. */
module SyllabusLlm {
  import opened Outcomes
  import opened Text

  /** How much of the syllabus, and of the book, goes into a prompt. */
  const ContextChars: nat := 4000

  const ShortLines := "5 lines"
  const DetailedLines := "detailed explanation"

  const ExtractTopicsFailed := "Error extracting syllabus topics"

  /** The model asked for the topics of a syllabus excerpt. */
  type TopicModel = string -> Option<string>

  /** The model asked to summarise a topic (topic, length wording, book
      excerpt). */
  type SummaryModel = (string, string, string) -> Option<string>

  datatype TopicSummary = TopicSummary(topic: string, summary: string)

  /** `extract_syllabus_topics(syllabus_text)`: the reply's non-blank lines,
      stripped, in order. */
  function ExtractSyllabusTopics(syllabusText: string, model: TopicModel): (r: Result<seq<string>, string>)
    ensures r.Failure? <==> model(Prefix(syllabusText, ContextChars)).None?
    ensures r.Failure? ==> r.error == ExtractTopicsFailed
    ensures r.Success? ==> forall k :: 0 <= k < |r.value| ==> r.value[k] != "" && IsTrimmed(r.value[k])
  {
    match model(Prefix(syllabusText, ContextChars))
    case None => Failure(ExtractTopicsFailed)
    case Some(reply) => Success(StrippedLonger(Split(reply, "\n"), 0))
  }

  /** Topics are exactly the stripped non-blank reply lines, and the reply's
      line order is kept: when the reply's lines are one block followed by
      another, the topics are those of the first block followed by those of
      the second. */
  lemma TopicsAreLines(syllabusText: string, model: TopicModel, t: string, before: seq<string>, after: seq<string>)
    requires model(Prefix(syllabusText, ContextChars)).Some?
    ensures var lines := Split(model(Prefix(syllabusText, ContextChars)).value, "\n");
            t in ExtractSyllabusTopics(syllabusText, model).value <==>
              exists line :: line in lines && t == Strip(line) && !IsBlank(line)
    ensures var lines := Split(model(Prefix(syllabusText, ContextChars)).value, "\n");
            lines == before + after ==>
              ExtractSyllabusTopics(syllabusText, model).value == StrippedLonger(before, 0) + StrippedLonger(after, 0)
  {
    var lines := Split(model(Prefix(syllabusText, ContextChars)).value, "\n");
    StrippedLongerMembers(lines, 0, t);
    StrippedLongerAppend(before, after, 0);
    forall line | line in lines ensures (|Strip(line)| > 0 <==> !IsBlank(line)) {
      StripBlank(line);
    }
  }

  /** The length wording passed to the model. */
  function Lines(summaryType: string): (lines: string)
    ensures lines == ShortLines <==> summaryType == "short"
    ensures lines == DetailedLines <==> summaryType != "short"
  {
    if summaryType == "short" then ShortLines else DetailedLines
  }

  /** The RuntimeError naming the topic whose call failed. */
  function SummaryFailed(topic: string): string {
    "Error generating summary for '" + topic + "'"
  }

  /** The summary of one topic: the topic unchanged and the stripped reply. */
  function SummaryFor(book: string, lines: string, model: SummaryModel, topic: string): (r: Option<TopicSummary>)
    ensures r.Some? <==> model(topic, lines, book).Some?
    ensures r.Some? ==> r.value == TopicSummary(topic, Strip(model(topic, lines, book).value))
  {
    match model(topic, lines, book)
    case None => None
    case Some(reply) => Some(TopicSummary(topic, Strip(reply)))
  }

  /** The per-topic step of the summary loop, as a function value. */
  function SummaryStep(book: string, lines: string, model: SummaryModel): string -> Option<TopicSummary> {
    t => SummaryFor(book, lines, model, t)
  }

  /** What `generate_syllabus_summary(book_text, topics, summary_type)`
      returns: one summary per topic, or the error naming the first topic
      whose call failed. */
  function Summaries(bookText: string, topics: seq<string>, summaryType: string, model: SummaryModel)
    : Result<seq<TopicSummary>, string>
  {
    var book := Prefix(bookText, ContextChars);
    match MapUntilFailure(topics, SummaryStep(book, Lines(summaryType), model))
    case Failure(topic) => Failure(SummaryFailed(topic))
    case Success(summaries) => Success(summaries)
  }

  /** One summary per topic in topic order; otherwise the error names the
      first topic whose call failed, every earlier call having succeeded. */
  lemma SummariesPerTopic(bookText: string, topics: seq<string>, summaryType: string, model: SummaryModel)
    ensures var book := Prefix(bookText, ContextChars);
            var r := Summaries(bookText, topics, summaryType, model);
            r.Success? ==>
              && |r.value| == |topics|
              && forall i :: 0 <= i < |topics| ==>
                   r.value[i] == TopicSummary(topics[i], Strip(model(topics[i], Lines(summaryType), book).value))
    ensures var book := Prefix(bookText, ContextChars);
            var r := Summaries(bookText, topics, summaryType, model);
            r.Failure? ==>
              exists i ::
                && 0 <= i < |topics|
                && r.error == SummaryFailed(topics[i])
                && model(topics[i], Lines(summaryType), book).None?
                && forall j :: 0 <= j < i ==> model(topics[j], Lines(summaryType), book).Some?
  {
    var book := Prefix(bookText, ContextChars);
    MapUntilFailureFirst(topics, SummaryStep(book, Lines(summaryType), model));
  }

  /** The per-topic loop of `generate_syllabus_summary`. */
  method GenerateSyllabusSummary(bookText: string, topics: seq<string>, summaryType: string, model: SummaryModel)
    returns (r: Result<seq<TopicSummary>, string>)
    ensures r == Summaries(bookText, topics, summaryType, model)
  {
    var book := Prefix(bookText, ContextChars);
    var lines := Lines(summaryType);
    ghost var step := SummaryStep(book, lines, model);
    var summaries: seq<TopicSummary> := [];
    var i := 0;
    while i < |topics|
      invariant 0 <= i <= |topics|
      invariant MapPrefix(topics, step, i) == Success(summaries)
    {
      var reply := model(topics[i], lines, book);
      if reply.None? {
        MapPrefixStops(topics, step, i + 1, |topics|);
        return Failure(SummaryFailed(topics[i]));
      }
      var summary := TopicSummary(topics[i], Strip(reply.value));
      assert step(topics[i]) == Some(summary);
      summaries := summaries + [summary];
      i := i + 1;
    }
    return Success(summaries);
  }
}
