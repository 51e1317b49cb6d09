/**
 * `get_book_recommendations`: build the query, skip the search when it is blank,
 * otherwise send one request and turn its answer into records.
 *
 * The network is not modelled. The caller supplies `response`, what the fetch
 * returns for the request (`None` when the request raised an error); the method
 * returns the request it sends, or `None` when it sends none.
 */
module Recommend {
  import opened Wrappers
  import opened Text
  import opened Query
  import opened Fetch
  import opened Books

  method GetBookRecommendations(p: Preferences, response: Option<Response>)
    returns (recs: seq<BookRecord>, request: Option<Request>)
    ensures request.None? <==> IsBlank(QueryText(p))
    ensures request.Some? ==> request.value == FetchRequest(QueryText(p), RecommendationLimit)
    ensures request.None? ==> recs == []
    ensures request.Some? ==> recs == Recommendations(response)
  {
    var query := BuildQuery(p);
    QueryIsJoinOfWords(p);
    if Strip(query) == "" {
      return [], None;
    }
    request := Some(FetchRequest(query, RecommendationLimit));
    recs := Recommendations(response);
  }

  /**
   * With no genre, no topic and no author nothing is fetched and nothing is
   * recommended, whatever the API would have answered.
   */
  method EmptyPreferencesFetchNothing(recentBook: string, response: Option<Response>)
    returns (recs: seq<BookRecord>, request: Option<Request>)
    ensures request == None && recs == []
  {
    var p := Preferences([], "", recentBook, []);
    EmptyPreferencesGiveEmptyQuery(p);
    recs, request := GetBookRecommendations(p, response);
  }

  /**
   * The blank check looks at the query before slashes are replaced, so a
   * query made only of slashes is sent, and sent empty.
   */
  lemma SlashOnlyGenreSendsEmptyQuery()
    ensures !IsBlank(QueryText(Preferences(["/"], "", "", [])))
    ensures FetchRequest(QueryText(Preferences(["/"], "", "", [])), RecommendationLimit).q == ""
  {
    var p := Preferences(["/"], "", "", []);
    assert QueryText(p) == "/";
    assert !AllSpace("/") by { assert !IsSpace("/"[0]); }
  }

  /** An author always leads to a request, and the request names the author. */
  lemma AuthorRequest(p: Preferences)
    requires p.author != ""
    requires p.genres == [] && p.topics == []
    requires forall k :: 0 <= k < |p.author| ==> p.author[k] != '/'
    requires !IsSpace(p.author[|p.author| - 1])
    ensures !IsBlank(QueryText(p))
    ensures FetchRequest(QueryText(p), RecommendationLimit).q == AuthorPrefix + p.author
  {
    AuthorForcesSearch(p);
    var q := AuthorPrefix + p.author;
    assert QueryText(p) == q;
    assert forall k :: 0 <= k < |q| ==> q[k] != '/' by {
      forall k | 0 <= k < |q| ensures q[k] != '/' {
        if k >= |AuthorPrefix| {
          assert q[k] == p.author[k - |AuthorPrefix|];
        }
      }
    }
    assert q[|q| - 1] == p.author[|p.author| - 1];
    SanitizeFixesClean(q);
  }
}
