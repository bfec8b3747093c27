/** `extract_keywords_from_text` of app/llm/research_llm.py: ask the chat
    model for keywords of the first 4000 characters of a book, then split the
    reply on ", ". The model is a function parameter; `None` is a call that
    raises. */
module ResearchLlm {
  import opened Outcomes
  import opened Text

  const ContextChars: nat := 4000

  /** The keyword separator: a comma followed by a space. */
  const KeywordSeparator := ", "

  const ExtractKeywordsFailed := "Error extracting keywords"

  type KeywordModel = string -> Option<string>

  /** The keywords of a reply: the pieces between ", ", stripped, blank ones
      dropped. */
  function ReplyKeywords(reply: string): (keywords: seq<string>)
    ensures forall k :: 0 <= k < |keywords| ==> keywords[k] != "" && IsTrimmed(keywords[k])
  {
    StrippedLonger(Split(reply, KeywordSeparator), 0)
  }

  function ExtractKeywordsFromText(bookText: string, model: KeywordModel): (r: Result<seq<string>, string>)
    ensures r.Failure? <==> model(Prefix(bookText, ContextChars)).None?
    ensures r.Failure? ==> r.error == ExtractKeywordsFailed
    ensures r.Success? ==> r.value == ReplyKeywords(model(Prefix(bookText, ContextChars)).value)
  {
    match model(Prefix(bookText, ContextChars))
    case None => Failure(ExtractKeywordsFailed)
    case Some(reply) => Success(ReplyKeywords(reply))
  }

  /** Every keyword is a stripped piece of the reply between separators,
      and every non-blank piece gives a keyword. */
  lemma KeywordsArePieces(reply: string, w: string)
    ensures w in ReplyKeywords(reply) <==>
              exists piece :: piece in Split(reply, KeywordSeparator) && w == Strip(piece) && |w| > 0
    ensures forall k :: 0 <= k < |Split(reply, KeywordSeparator)| ==> !Contains(Split(reply, KeywordSeparator)[k], KeywordSeparator)
  {
    StrippedLongerMembers(Split(reply, KeywordSeparator), 0, w);
  }

  /** A reply without ", " is a single keyword, whatever bare commas it
      holds: a bare comma does not split. */
  lemma NoSeparatorOneKeyword(reply: string)
    requires !Contains(reply, KeywordSeparator) && !IsBlank(reply)
    ensures ReplyKeywords(reply) == [Strip(reply)]
  {
    SplitWithoutSeparator(reply, KeywordSeparator);
    StrippedLongerSingle(reply, 0);
    StripBlank(reply);
  }

  /** Splitting is undone by joining with ", ": the pieces the keywords come
      from hold the whole reply. */
  lemma PiecesHoldReply(reply: string)
    ensures Join(Split(reply, KeywordSeparator), KeywordSeparator) == reply
  {
    SplitJoin(reply, KeywordSeparator);
  }
}
