/**
 * What `fetch_books_data` does before the network call: clean the query text
 * and fix the request parameters. The HTTP exchange itself is not modelled; its
 * outcome enters the pipeline as a value (see module Books).
 */
module Fetch {
  import opened Text

  /** The result cap used by the recommendation flow. */
  const RecommendationLimit: nat := 10

  /** The language every search is restricted to. */
  const Language: string := "ko"

  /**
   * The parameters of the one outbound request, before URL encoding and
   * without the API key.
   */
  datatype Request = Request(q: string, maxResults: nat, langRestrict: string)

  /** A character the cleaning turns into nothing when it stands at either end. */
  predicate IsSlashOrSpace(c: char)
  {
    c == '/' || IsSpace(c)
  }

  /**
   * `query.replace('/', ' ').strip()`: every slash becomes a space, then the
   * whitespace at both ends goes. The result holds no slash, does not start
   * or end with whitespace, and is blank only when the input was blanks and
   * slashes.
   */
  function Sanitize(query: string): (r: string)
    ensures forall k :: 0 <= k < |r| ==> r[k] != '/'
    ensures r == [] || (!IsSpace(r[0]) && !IsSpace(r[|r| - 1]))
    ensures r == [] <==> forall k :: 0 <= k < |query| ==> IsSlashOrSpace(query[k])
    ensures |r| <= |query|
  {
    var t := ReplaceChar(query, '/', ' ');
    StripAvoids(t, '/');
    SlashesAndBlanks(query);
    Strip(t)
  }

  /** After the replacement, the text is blank exactly when the input was blanks and slashes. */
  lemma SlashesAndBlanks(query: string)
    ensures AllSpace(ReplaceChar(query, '/', ' ')) <==>
      forall k :: 0 <= k < |query| ==> IsSlashOrSpace(query[k])
  {
    var t := ReplaceChar(query, '/', ' ');
    if AllSpace(t) {
      forall k | 0 <= k < |query| ensures IsSlashOrSpace(query[k]) {
        assert IsSpace(t[k]);
      }
    }
  }

  /**
   * Every character of the input that is not cut away at the ends survives, in
   * order, with slashes turned into spaces: the result is the piece of the
   * slash-replaced input between its first and last non-whitespace characters.
   */
  lemma SanitizeKeepsOtherCharacters(query: string, i: nat, j: nat)
    requires i <= j <= |query|
    requires forall k :: 0 <= k < i ==> IsSlashOrSpace(query[k])
    requires forall k :: j <= k < |query| ==> IsSlashOrSpace(query[k])
    requires i < j ==> !IsSlashOrSpace(query[i]) && !IsSlashOrSpace(query[j - 1])
    ensures |Sanitize(query)| == j - i
    ensures forall k :: i <= k < j ==> Sanitize(query)[k - i] == (if query[k] == '/' then ' ' else query[k])
  {
    var t := ReplaceChar(query, '/', ' ');
    ReplacedSpan(query, 0, i);
    ReplacedSpan(query, j, |query|);
    assert t[..i] == t[0..i] && t[j..] == t[j..|query|];
    StripUnique(t, i, j);
    var r := Sanitize(query);
    assert r == t[i..j];
    forall k | i <= k < j ensures r[k - i] == (if query[k] == '/' then ' ' else query[k]) {
      assert r[k - i] == t[k];
    }
  }

  /** A run of slashes and whitespace is all whitespace once slashes are replaced. */
  lemma ReplacedSpan(query: string, lo: nat, hi: nat)
    requires lo <= hi <= |query|
    requires forall k :: lo <= k < hi ==> IsSlashOrSpace(query[k])
    ensures AllSpace(ReplaceChar(query, '/', ' ')[lo..hi])
  {
    var t := ReplaceChar(query, '/', ' ');
    forall k | 0 <= k < hi - lo ensures IsSpace(t[lo..hi][k]) {
      assert t[lo..hi][k] == t[lo + k];
    }
  }

  /** A query with no slash and no whitespace at its ends is sent as it is. */
  lemma SanitizeFixesClean(query: string)
    requires forall k :: 0 <= k < |query| ==> query[k] != '/'
    requires query == [] || (!IsSpace(query[0]) && !IsSpace(query[|query| - 1]))
    ensures Sanitize(query) == query
  {
    var t := ReplaceChar(query, '/', ' ');
    assert t == query;
    assert t[..0] == [] && t[|t|..] == [];
    StripUnique(t, 0, |t|);
    assert t[0..|t|] == t;
  }

  /** Cleaning twice is cleaning once. */
  lemma SanitizeIdempotent(query: string)
    ensures Sanitize(Sanitize(query)) == Sanitize(query)
  {
    SanitizeFixesClean(Sanitize(query));
  }

  /** A slash is replaced by a space, not deleted. */
  lemma SlashBecomesSpaceExample()
    ensures Sanitize("시/에세이") == "시 에세이"
  {
    var q := "시/에세이";
    var t := ReplaceChar(q, '/', ' ');
    assert q[0] == '시' && q[1] == '/' && q[2] == '에' && q[3] == '세' && q[4] == '이';
    assert t == "시 에세이" by {
      assert |t| == 5;
      assert t[0] == '시' && t[1] == ' ' && t[2] == '에' && t[3] == '세' && t[4] == '이';
    }
    assert !IsSpace(t[0]) && !IsSpace(t[4]);
    assert t[..0] == [] && t[5..] == [];
    StripUnique(t, 0, 5);
  }

  /**
   * The request `fetch_books_data` sends: the cleaned query, the caller's
   * result cap and the Korean language restriction.
   */
  function FetchRequest(query: string, maxResults: nat): Request
  {
    Request(Sanitize(query), maxResults, Language)
  }

  /**
   * The request carries a query with no slash and no whitespace at its ends,
   * the caller's cap and the language `ko`; cleaning the already cleaned query
   * again would send the very same request.
   */
  lemma FetchRequestParams(query: string, maxResults: nat)
    ensures var r := FetchRequest(query, maxResults);
      && (forall k :: 0 <= k < |r.q| ==> r.q[k] != '/')
      && (r.q == [] || (!IsSpace(r.q[0]) && !IsSpace(r.q[|r.q| - 1])))
      && r.maxResults == maxResults && r.langRestrict == "ko"
      && FetchRequest(r.q, maxResults) == r
  {
    SanitizeIdempotent(query);
  }
}
