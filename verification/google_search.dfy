/** The web search endpoint of app/api/google_search.py: ask the Serper
    search service, keep the organic results whose link does not look like
    an advertisement, and fill in defaults for missing fields. The service is
    a function parameter; its reply is given by its status and its
    `organic` list. */
module GoogleSearch {
  import opened Outcomes
  import opened Text

  const SearchFailed := HttpError(500, "Error fetching search results")
  const NoResults := HttpError(404, "No relevant search results found.")

  const NoTitle := "No title available"
  const NoSnippet := "No description available"
  const NoLink := "#"
  const NoSource := "Unknown Source"

  /** One organic result; a missing key is `None`. */
  datatype OrganicResult = OrganicResult(title: Option<string>, snippet: Option<string>, link: Option<string>,
                                         source: Option<string>)

  /** The search reply: its status, and its `organic` list if the key is
      present. */
  datatype SerperReply = SerperReply(status: int, organic: Option<seq<OrganicResult>>)

  /** The search service, given the query and the number of results. */
  type Serper = (string, int) -> SerperReply

  datatype SearchRequest = SearchRequest(query: string, numResults: int)

  /** The response item. It has no `source` field, so the source the loop
      computes is dropped when the item is built. */
  datatype SearchResult = SearchResult(title: string, link: string, snippet: string)

  /** `dict.get(key, default)`. */
  function Or(value: Option<string>, default: string): string {
    if value.Some? then value.value else default
  }

  /** The link a result is judged by: its own, or "#". */
  function LinkOf(result: OrganicResult): string {
    Or(result.link, NoLink)
  }

  /** A result is skipped when its link contains "ads" or "sponsored"
      anywhere — also inside words, as in ".../downloads". */
  predicate IsAdLink(link: string) {
    Contains(link, "ads") || Contains(link, "sponsored")
  }

  /** The response item for a kept result, with defaults. */
  function Shape(result: OrganicResult): SearchResult {
    SearchResult(Or(result.title, NoTitle), LinkOf(result), Or(result.snippet, NoSnippet))
  }

  /** The response items for the first `n` organic results, in order. */
  function Kept(results: seq<OrganicResult>, n: nat): (kept: seq<SearchResult>)
    requires n <= |results|
    ensures |kept| <= n
  {
    if n == 0 then []
    else Kept(results, n - 1) + (if IsAdLink(LinkOf(results[n - 1])) then [] else [Shape(results[n - 1])])
  }

  /** A response item is there exactly when some non-ad result shapes to
      it. */
  lemma {:induction false} KeptMembers(results: seq<OrganicResult>, n: nat, item: SearchResult)
    requires n <= |results|
    ensures item in Kept(results, n) <==>
              exists i :: 0 <= i < n && !IsAdLink(LinkOf(results[i])) && item == Shape(results[i])
  {
    if n > 0 {
      KeptMembers(results, n - 1, item);
    }
  }

  /** Input order is kept: the items of the first `m` results begin the
      items of the first `n`, for `m <= n`. */
  lemma {:induction false} KeptInOrder(results: seq<OrganicResult>, m: nat, n: nat)
    requires m <= n <= |results|
    ensures Kept(results, m) <= Kept(results, n)
  {
    if m < n {
      KeptInOrder(results, m, n - 1);
    }
  }

  /** Nothing is kept exactly when every result is an ad. */
  lemma {:induction false} KeptEmpty(results: seq<OrganicResult>, n: nat)
    requires n <= |results|
    ensures Kept(results, n) == [] <==> forall i :: 0 <= i < n ==> IsAdLink(LinkOf(results[i]))
  {
    if n > 0 {
      KeptEmpty(results, n - 1);
    }
  }

  /** The items depend on the first `n` results only. */
  lemma {:induction false} KeptPrefix(results: seq<OrganicResult>, others: seq<OrganicResult>, n: nat)
    requires n <= |results| && n <= |others| && results[..n] == others[..n]
    ensures Kept(results, n) == Kept(others, n)
  {
    if n > 0 {
      assert results[n - 1] == results[..n][n - 1] == others[n - 1];
      assert results[..n - 1] == results[..n][..n - 1];
      assert others[..n - 1] == others[..n][..n - 1];
      KeptPrefix(results, others, n - 1);
    }
  }

  /** A result with an ad link leaves no trace: the items are those of the
      results without it. */
  lemma {:induction false} AdResultDropped(results: seq<OrganicResult>, i: nat, n: nat)
    requires i < n <= |results| && IsAdLink(LinkOf(results[i]))
    ensures Kept(results, n) == Kept(results[..i] + results[i + 1..], n - 1)
  {
    var others := results[..i] + results[i + 1..];
    if n == i + 1 {
      assert others[..i] == results[..i];
      KeptPrefix(results, others, i);
    } else {
      var last := results[n - 1];
      var item := if IsAdLink(LinkOf(last)) then [] else [Shape(last)];
      assert others[n - 2] == last;
      calc {
        Kept(results, n);
        Kept(results, n - 1) + item;
        { AdResultDropped(results, i, n - 1); }
        Kept(others, n - 2) + item;
        Kept(others, n - 1);
      }
    }
  }

  /** The substring test also matches inside words: any link with
      "/downloads" in it is an ad link. */
  lemma DownloadLinkSkipped(site: string, rest: string)
    ensures IsAdLink(site + "/downloads" + rest)
  {
    var link := site + "/downloads" + rest;
    assert link[|site| + 7..|site| + 10] == "ads";
    assert OccursAt(link, "ads", |site| + 7);
    ContainsIff(link, "ads");
  }

  /** What `fetch_search_results` answers. */
  function Search(request: SearchRequest, serper: Serper): Result<seq<SearchResult>, HttpError> {
    var reply := serper(request.query, request.numResults);
    if reply.status != 200 then Failure(SearchFailed)
    else
      var organic := if reply.organic.Some? then reply.organic.value else [];
      var kept := Kept(organic, |organic|);
      if kept == [] then Failure(NoResults) else Success(kept)
  }

  /** A non-200 reply is a 500; a reply without `organic` is a 404; a
      success lists exactly the non-ad results, shaped, in order. */
  lemma SearchCases(request: SearchRequest, serper: Serper, item: SearchResult)
    ensures var reply := serper(request.query, request.numResults);
            && (reply.status != 200 ==> Search(request, serper) == Failure(SearchFailed))
            && (reply.status == 200 && reply.organic.None? ==> Search(request, serper) == Failure(NoResults))
    ensures var reply := serper(request.query, request.numResults);
            Search(request, serper).Success? ==>
              && reply.status == 200 && reply.organic.Some?
              && (item in Search(request, serper).value <==>
                    exists i :: 0 <= i < |reply.organic.value| && !IsAdLink(LinkOf(reply.organic.value[i])) &&
                      item == Shape(reply.organic.value[i]))
  {
    var reply := serper(request.query, request.numResults);
    if reply.status == 200 && reply.organic.Some? {
      KeptMembers(reply.organic.value, |reply.organic.value|, item);
    }
  }

  /** `fetch_search_results`: the loop over the organic results, skipping
      ads with `continue`. */
  method FetchSearchResults(request: SearchRequest, serper: Serper) returns (r: Result<seq<SearchResult>, HttpError>)
    ensures r == Search(request, serper)
  {
    var reply := serper(request.query, request.numResults);
    if reply.status != 200 {
      return Failure(SearchFailed);
    }
    var results: seq<SearchResult> := [];
    if reply.organic.Some? {
      var organic := reply.organic.value;
      var i := 0;
      while i < |organic|
        invariant 0 <= i <= |organic|
        invariant results == Kept(organic, i)
      {
        var result := organic[i];
        var title := Or(result.title, NoTitle);
        var snippet := Or(result.snippet, NoSnippet);
        var link := Or(result.link, NoLink);
        var source := Or(result.source, NoSource);
        i := i + 1;
        if IsAdLink(link) {
          continue;
        }
        results := results + [SearchResult(title, link, snippet)];
      }
    }
    if results == [] {
      return Failure(NoResults);
    }
    return Success(results);
  }
}
