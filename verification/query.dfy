/**
 * Turning the reader's preferences into one search string for the book-search
 * API (`get_book_recommendations`, before the fetch).
 */
module Query {
  import opened Text

  /**
   * The preference record the form produces. `genres` and `topics` are the
   * multiselect choices in the order they were picked; `author` and `recentBook`
   * are free text, empty when left blank.
   */
  datatype Preferences = Preferences(
    genres: seq<string>,
    author: string,
    recentBook: string,
    topics: seq<string>)

  /** The prefix that restricts the search to one author. */
  const AuthorPrefix: string := "inauthor:"

  /**
   * The author fragment: the prefix followed directly by the author text. It
   * never starts with whitespace, so it is never blank; it holds a space only
   * where the author text does; and the author text can be read back from it.
   */
  function AuthorFragment(author: string): (r: string)
    ensures r != [] && !IsSpace(r[0])
    ensures ' ' in r <==> ' ' in author
    ensures |r| >= |AuthorPrefix| && r[|AuthorPrefix|..] == author
  {
    var r := AuthorPrefix + author;
    assert ' ' in author ==> ' ' in r by {
      if ' ' in author {
        var k :| 0 <= k < |author| && author[k] == ' ';
        assert r[|AuthorPrefix| + k] == ' ';
      }
    }
    assert ' ' in r ==> ' ' in author by {
      if ' ' in r {
        var k :| 0 <= k < |r| && r[k] == ' ';
        assert k >= |AuthorPrefix|;
        assert author[k - |AuthorPrefix|] == ' ';
      }
    }
    r
  }

  /**
   * The fragments the source collects, in order: the genres joined, the topics
   * joined, the author fragment; each only when its input is non-empty.
   */
  function Fragments(p: Preferences): seq<string>
  {
    (if p.genres != [] then [Join(p.genres)] else [])
    + (if p.topics != [] then [Join(p.topics)] else [])
    + (if p.author != "" then [AuthorFragment(p.author)] else [])
  }

  /** The query string: the fragments joined by single spaces. */
  function QueryText(p: Preferences): string
  {
    Join(Fragments(p))
  }

  /** The words of the query, in order: every genre, every topic, then the author fragment. */
  function Words(p: Preferences): seq<string>
  {
    p.genres + p.topics + (if p.author != "" then [AuthorFragment(p.author)] else [])
  }

  /** `not query.strip()`: the query is empty or only whitespace, so the search is skipped. */
  predicate IsBlank(query: string): (b: bool)
    ensures b <==> AllSpace(query)
  {
    Strip(query) == ""
  }

  /**
   * The list `search_terms` as the source builds it, one conditional append
   * after another.
   */
  method CollectSearchTerms(p: Preferences) returns (terms: seq<string>)
    ensures terms == Fragments(p)
    ensures |terms| <= 3
    ensures p.genres != [] ==> terms[0] == Join(p.genres)
    ensures p.author != "" ==> terms[|terms| - 1] == AuthorPrefix + p.author
  {
    terms := [];
    if p.genres != [] {
      terms := terms + [Join(p.genres)];
    }
    if p.topics != [] {
      terms := terms + [Join(p.topics)];
    }
    if p.author != "" {
      terms := terms + [AuthorFragment(p.author)];
    }
  }

  /** The query string the source builds: `" ".join(search_terms)`. */
  method BuildQuery(p: Preferences) returns (query: string)
    ensures query == Join(Words(p))
  {
    var terms := CollectSearchTerms(p);
    query := Join(terms);
    QueryIsJoinOfWords(p);
  }

  /** An absent part adds neither a fragment nor a separator. */
  lemma FragmentCount(p: Preferences)
    ensures |Fragments(p)| ==
      (if p.genres != [] then 1 else 0) + (if p.topics != [] then 1 else 0) + (if p.author != "" then 1 else 0)
  {
  }

  /**
   * Flattening the fragments: the query is every genre, every topic and the
   * author fragment, in that order, with exactly one space between neighbours
   * and no extra space where a part is absent.
   */
  lemma {:induction false} QueryIsJoinOfWords(p: Preferences)
    ensures QueryText(p) == Join(Words(p))
  {
    var a := if p.author != "" then [AuthorFragment(p.author)] else [];
    if p.genres != [] && p.topics != [] {
      JoinAppend(p.genres, p.topics);
      if a != [] {
        JoinAppend(p.genres + p.topics, a);
        assert Fragments(p) == [Join(p.genres), Join(p.topics)] + a;
        JoinAppend([Join(p.genres), Join(p.topics)], a);
        assert Join([Join(p.genres), Join(p.topics)]) == Join(p.genres) + " " + Join(p.topics);
      } else {
        assert Words(p) == p.genres + p.topics;
        assert Fragments(p) == [Join(p.genres), Join(p.topics)];
        assert Join([Join(p.genres), Join(p.topics)]) == Join(p.genres) + " " + Join(p.topics);
      }
    } else if p.genres != [] {
      assert Words(p) == p.genres + a;
      if a != [] {
        JoinAppend(p.genres, a);
        assert Fragments(p) == [Join(p.genres)] + a;
      } else {
        assert Words(p) == p.genres;
        assert Fragments(p) == [Join(p.genres)];
      }
    } else if p.topics != [] {
      assert Words(p) == p.topics + a;
      if a != [] {
        JoinAppend(p.topics, a);
        assert Fragments(p) == [Join(p.topics)] + a;
      } else {
        assert Words(p) == p.topics;
        assert Fragments(p) == [Join(p.topics)];
      }
    } else {
      assert Words(p) == a && Fragments(p) == a;
    }
  }

  /**
   * When no genre, topic or author text holds a space, splitting the query at
   * its spaces gives back exactly the words, in order.
   */
  lemma QuerySplitsIntoWords(p: Preferences)
    requires Words(p) != []
    requires forall k :: 0 <= k < |p.genres| ==> ' ' !in p.genres[k]
    requires forall k :: 0 <= k < |p.topics| ==> ' ' !in p.topics[k]
    requires ' ' !in p.author
    ensures Split(QueryText(p)) == Words(p)
  {
    QueryIsJoinOfWords(p);
    var w := Words(p);
    forall k | 0 <= k < |w| ensures ' ' !in w[k] {
      if k < |p.genres| {
        assert w[k] == p.genres[k];
      } else if k < |p.genres| + |p.topics| {
        assert w[k] == p.topics[k - |p.genres|];
      } else {
        assert w[k] == AuthorFragment(p.author);
      }
    }
    SplitJoin(w);
  }

  /**
   * The search is skipped exactly when no author is given and every chosen
   * genre and topic is blank; with no choices at all it is always skipped.
   */
  lemma BlankIff(p: Preferences)
    ensures IsBlank(QueryText(p)) <==>
      p.author == "" && forall k :: 0 <= k < |p.genres + p.topics| ==> AllSpace((p.genres + p.topics)[k])
  {
    QueryIsJoinOfWords(p);
    var w := Words(p);
    JoinAllSpace(w);
    if p.author != "" {
      var k := |p.genres + p.topics|;
      assert w[k] == AuthorFragment(p.author);
    } else {
      assert w == p.genres + p.topics;
    }
  }

  /** No genres, no topics and no author give the empty query, which is blank. */
  lemma EmptyPreferencesGiveEmptyQuery(p: Preferences)
    requires p.genres == [] && p.topics == [] && p.author == ""
    ensures QueryText(p) == "" && IsBlank(QueryText(p))
  {
  }

  /** Any author text makes the query non-blank, so the search goes ahead. */
  lemma AuthorForcesSearch(p: Preferences)
    requires p.author != ""
    ensures !IsBlank(QueryText(p))
  {
    BlankIff(p);
  }

  /** The recently read book plays no part in the query. */
  lemma RecentBookIgnored(p: Preferences, other: string)
    ensures QueryText(p.(recentBook := other)) == QueryText(p)
  {
  }

  /** One genre alone is the whole query. */
  lemma SingleGenreExample()
    ensures QueryText(Preferences(["소설"], "", "", [])) == "소설"
  {
  }

  /** An author alone gives the author fragment with no space after the prefix. */
  lemma AuthorOnlyExample()
    ensures QueryText(Preferences([], "김영하", "", [])) == "inauthor:김영하"
  {
  }

  /** Genres, then topics, then the author, one space apart. */
  lemma AllPartsExample()
    ensures QueryText(Preferences(["과학"], "칼세이건", "", ["철학"])) == "과학 철학 inauthor:칼세이건"
  {
  }
}
