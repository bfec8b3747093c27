/** The research endpoints of app/api/research_papers.py: keywords of a
    book, and papers from Crossref for a query — the user's own, or the first
    keyword of the user's latest book. The chat model and the Crossref
    service are function parameters; a Crossref reply is given by its status
    and the parts of its JSON body the endpoint reads. */
module ResearchPapers {
  import opened Outcomes
  import opened Text
  import opened Books
  import opened ResearchLlm

  const BookNotFound := HttpError(404, "Book not found.")
  const NoBookYet := HttpError(400, "No book uploaded yet for the current user.")
  const NoKeywords := HttpError(400, "No keywords found in the book.")
  const CrossrefFailed := HttpError(500, "Error fetching research papers.")
  const NoPapers := HttpError(404, "No research papers found for the given query.")

  const NoTitle := "No title available"
  const NoAbstract := "Abstract not available"

  /** An author object; a missing key is `None`. */
  datatype Author = Author(family: Option<string>, given: Option<string>)

  /** A Crossref work; a missing key is `None`. */
  datatype CrossrefItem = CrossrefItem(title: Option<seq<string>>, url: Option<string>, summary: Option<string>,
                                       authors: Option<seq<Author>>)

  /** The `message` object of a Crossref reply: absent, or present with or
      without `items`. */
  datatype CrossrefMessage = NoMessage | Message(items: Option<seq<CrossrefItem>>)

  datatype CrossrefReply = CrossrefReply(status: int, message: CrossrefMessage)

  /** The Crossref works search, given the query and the number of rows. */
  type Crossref = (string, int) -> CrossrefReply

  datatype ResearchPaper = ResearchPaper(title: string, link: string, abstractText: string, authors: seq<string>)

  /** The request body; `numPapers` defaults to 5 on the client side. */
  datatype ResearchRequest = ResearchRequest(query: Option<string>, numPapers: int)

  datatype ResearchReply = ResearchReply(query: string, papers: seq<ResearchPaper>)

  /** `get_book_keywords`: the keywords of the selected book. */
  function GetBookKeywords(books: seq<Book>, bookId: Option<int>, user: nat, model: KeywordModel)
    : (r: Result<seq<string>, HttpError>)
    ensures SelectBook(books, bookId, user).None? ==> r == Failure(BookNotFound)
    ensures SelectBook(books, bookId, user).Some? ==>
              var keywords := ExtractKeywordsFromText(SelectBook(books, bookId, user).value.textContent, model);
              && (keywords.Success? ==> r == Success(keywords.value))
              && (keywords.Failure? ==> r == Failure(HttpError(500, ExtractKeywordsFailed)))
  {
    match SelectBook(books, bookId, user)
    case None => Failure(BookNotFound)
    case Some(book) =>
      match ExtractKeywordsFromText(book.textContent, model)
      case Failure(detail) => Failure(HttpError(500, detail))
      case Success(keywords) => Success(keywords)
  }

  /** `data.get("message", {}).get("items", [])`. */
  function Items(message: CrossrefMessage): seq<CrossrefItem> {
    match message
    case NoMessage => []
    case Message(items) => if items.Some? then items.value else []
  }

  /** The author list: "family, given" for every author that has both,
      in order. When every author has both, there is one name per author. */
  function AuthorNames(authors: seq<Author>): (names: seq<string>)
    ensures |names| <= |authors|
    ensures (forall k :: 0 <= k < |authors| ==> authors[k].family.Some? && authors[k].given.Some?) ==>
              && |names| == |authors|
              && forall k :: 0 <= k < |authors| ==> names[k] == authors[k].family.value + ", " + authors[k].given.value
  {
    if authors == [] then []
    else
      var a := authors[0];
      (if a.family.Some? && a.given.Some? then [a.family.value + ", " + a.given.value] else []) + AuthorNames(authors[1..])
  }

  /** A name is listed exactly when some author has both parts and that is
      its formatting. */
  lemma {:induction false} AuthorNamesMembers(authors: seq<Author>, name: string)
    ensures name in AuthorNames(authors) <==>
              exists a :: a in authors && a.family.Some? && a.given.Some? && name == a.family.value + ", " + a.given.value
  {
    if authors != [] {
      AuthorNamesMembers(authors[1..], name);
      var a :| a == authors[0];
      assert forall b :: b in authors ==> b == a || b in authors[1..];
    }
  }

  /** Author order is kept: the names of two runs of authors are those of
      the first run followed by those of the second. */
  lemma {:induction false} AuthorNamesAppend(xs: seq<Author>, ys: seq<Author>)
    ensures AuthorNames(xs + ys) == AuthorNames(xs) + AuthorNames(ys)
  {
    if xs == [] {
      assert xs + ys == ys;
    } else {
      var a := xs[0];
      var head := if a.family.Some? && a.given.Some? then [a.family.value + ", " + a.given.value] else [];
      TailOfAppend(xs, ys);
      AuthorNamesAppend(xs[1..], ys);
      calc {
        AuthorNames(xs + ys);
        head + AuthorNames(xs[1..] + ys);
        head + (AuthorNames(xs[1..]) + AuthorNames(ys));
        (head + AuthorNames(xs[1..])) + AuthorNames(ys);
      }
    }
  }

  /** One `ResearchPaper` from one Crossref item: the first title (or the
      default when the key is absent), the URL or "", the abstract or its
      default, and the author names. `None` when `title` is an empty list,
      where the indexing raises IndexError and the request ends in
      `Unhandled`. */
  function ToPaper(item: CrossrefItem): (r: Option<ResearchPaper>)
    ensures r.None? <==> item.title == Some([])
    ensures r.Some? ==> r.value.title == (if item.title.Some? then item.title.value[0] else NoTitle)
    ensures r.Some? ==> r.value.link == (if item.url.Some? then item.url.value else "")
    ensures r.Some? ==> r.value.abstractText == (if item.summary.Some? then item.summary.value else NoAbstract)
    ensures r.Some? ==> r.value.authors == AuthorNames(if item.authors.Some? then item.authors.value else [])
  {
    var titles := if item.title.Some? then item.title.value else [NoTitle];
    if titles == [] then None
    else
      Some(ResearchPaper(titles[0],
                         if item.url.Some? then item.url.value else "",
                         if item.summary.Some? then item.summary.value else NoAbstract,
                         AuthorNames(if item.authors.Some? then item.authors.value else [])))
  }

  /** The query used: the request's own when it is truthy, otherwise the
      first keyword of the user's latest book. */
  function ResolveQuery(books: seq<Book>, request: ResearchRequest, user: nat, model: KeywordModel)
    : (r: Result<string, HttpError>)
    ensures request.query.Some? && request.query.value != "" ==> r == Success(request.query.value)
  {
    if request.query.Some? && request.query.value != "" then Success(request.query.value)
    else match LatestBook(books, user)
      case None => Failure(NoBookYet)
      case Some(book) =>
        match ExtractKeywordsFromText(book.textContent, model)
        case Failure(detail) => Failure(HttpError(500, detail))
        case Success(keywords) => if keywords == [] then Failure(NoKeywords) else Success(keywords[0])
  }

  /** A missing or empty query falls back to the latest book: no book is a
      400, a failed model call a 500, no keywords a 400, and otherwise the
      first keyword — a non-empty stripped string — is the query. */
  lemma DefaultQuery(books: seq<Book>, request: ResearchRequest, user: nat, model: KeywordModel)
    requires request.query.None? || request.query.value == ""
    ensures LatestBook(books, user).None? ==> ResolveQuery(books, request, user, model) == Failure(NoBookYet)
    ensures var r := ResolveQuery(books, request, user, model);
            r.Success? ==>
              && LatestBook(books, user).Some?
              && var keywords := ExtractKeywordsFromText(LatestBook(books, user).value.textContent, model);
              && keywords.Success? && |keywords.value| > 0
              && r.value == keywords.value[0] && r.value != "" && IsTrimmed(r.value)
    ensures ResolveQuery(books, request, user, model).Failure? ==>
              ResolveQuery(books, request, user, model).error in {NoBookYet, NoKeywords, HttpError(500, ExtractKeywordsFailed)}
    ensures LatestBook(books, user).Some? ==>
              var keywords := ExtractKeywordsFromText(LatestBook(books, user).value.textContent, model);
              && (keywords.Failure? ==> ResolveQuery(books, request, user, model) == Failure(HttpError(500, ExtractKeywordsFailed)))
              && (keywords == Success([]) ==> ResolveQuery(books, request, user, model) == Failure(NoKeywords))
              && (keywords.Success? && keywords.value != [] ==>
                    ResolveQuery(books, request, user, model) == Success(keywords.value[0]))
  {
  }

  /** What `fetch_research_papers` answers once the query is settled and
      Crossref has replied. */
  function PapersFromReply(query: string, reply: CrossrefReply): Result<ResearchReply, HttpError> {
    if reply.status != 200 then Failure(CrossrefFailed)
    else match MapUntilFailure(Items(reply.message), ToPaper)
      case Failure(_) => Failure(Unhandled)
      case Success(papers) => if papers == [] then Failure(NoPapers) else Success(ResearchReply(query, papers))
  }

  /** What `fetch_research_papers` answers. */
  function Research(books: seq<Book>, request: ResearchRequest, user: nat, model: KeywordModel, crossref: Crossref)
    : Result<ResearchReply, HttpError>
  {
    match ResolveQuery(books, request, user, model)
    case Failure(e) => Failure(e)
    case Success(query) => PapersFromReply(query, crossref(query, request.numPapers))
  }

  /** A successful search echoes the query actually used and has one paper
      per Crossref item, in item order, each shaped from its item; a non-200
      reply is a 500, and no items is a 404. */
  lemma ResearchShape(books: seq<Book>, request: ResearchRequest, user: nat, model: KeywordModel, crossref: Crossref)
    ensures var r := Research(books, request, user, model, crossref);
            r.Success? ==>
              && ResolveQuery(books, request, user, model) == Success(r.value.query)
              && var items := Items(crossref(r.value.query, request.numPapers).message);
              && |r.value.papers| == |items| > 0
              && forall i :: 0 <= i < |items| ==> ToPaper(items[i]) == Some(r.value.papers[i])
    ensures ResolveQuery(books, request, user, model).Success? ==>
              var reply := crossref(ResolveQuery(books, request, user, model).value, request.numPapers);
              && (reply.status != 200 ==> Research(books, request, user, model, crossref) == Failure(CrossrefFailed))
              && (reply.status == 200 && Items(reply.message) == [] ==>
                    Research(books, request, user, model, crossref) == Failure(NoPapers))
  {
    var q := ResolveQuery(books, request, user, model);
    if q.Success? {
      var reply := crossref(q.value, request.numPapers);
      MapUntilFailureFirst(Items(reply.message), ToPaper);
    }
  }

  /** `fetch_research_papers`: settle the query, call Crossref, then shape
      the items. */
  method FetchResearchPapers(books: seq<Book>, request: ResearchRequest, user: nat, model: KeywordModel, crossref: Crossref)
    returns (r: Result<ResearchReply, HttpError>)
    ensures r == Research(books, request, user, model, crossref)
  {
    var query := ResolveQuery(books, request, user, model);
    if query.Failure? {
      return Failure(query.error);
    }
    var reply := crossref(query.value, request.numPapers);
    r := ShapePapers(query.value, reply);
  }

  /** The part of `fetch_research_papers` after the Crossref call: the
      status check, then the items shaped one by one. */
  method ShapePapers(query: string, reply: CrossrefReply) returns (r: Result<ResearchReply, HttpError>)
    ensures r == PapersFromReply(query, reply)
  {
    if reply.status != 200 {
      return Failure(CrossrefFailed);
    }
    var items := Items(reply.message);
    var papers: seq<ResearchPaper> := [];
    var i := 0;
    while i < |items|
      invariant 0 <= i <= |items|
      invariant MapPrefix(items, ToPaper, i) == Success(papers)
    {
      var paper := ToPaper(items[i]);
      if paper.None? {
        MapPrefixStops(items, ToPaper, i + 1, |items|);
        return Failure(Unhandled);
      }
      papers := papers + [paper.value];
      i := i + 1;
    }
    if papers == [] {
      return Failure(NoPapers);
    }
    return Success(ResearchReply(query, papers));
  }
}
