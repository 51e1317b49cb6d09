# BookLens search pipeline in Dafny

BookLens is a single-page Streamlit app. It asks a reader for favourite genres,
topics and an author, searches the Google Books API for Korean-language books,
and shows the results as cards. This project models the part of `app.py` that
is not screen layout or network I/O:

- **Query building** (`get_book_recommendations`, before the fetch). The method
  `Query.CollectSearchTerms` grows the list of fragments with conditional
  appends: the genres joined by spaces, the topics joined by spaces, then
  `inauthor:<author>`. `Query.BuildQuery` joins the fragments with single
  spaces. `Recommend.GetBookRecommendations` skips the search when the query is
  blank.
- **Query cleaning** (`fetch_books_data`, line 18). `Fetch.Sanitize` replaces
  every `/` with a space, then strips whitespace at both ends with Python's
  `str.strip()` character class (`Text.IsSpace`).
- **Record normalisation** (`process_book_data`). `Books.ProcessBookData`
  projects the optional `volumeInfo` object onto an eight-field `BookRecord`.
  Missing text fields get the fixed Korean placeholders. A missing thumbnail or
  preview link becomes `None`.
- **Result assembly**. `Books.Recommendations` maps a fetch outcome to the
  records. A failed fetch or an answer without `items` gives no records.
  Otherwise there is one record per item, in the API's order.

The Python string operations the pipeline uses are modelled in module `Text`:
`strip()` with the whitespace set of `str.isspace` (`Text.IsSpace`),
single-character `replace`, and `" ".join` (`Text.Join`). The code never calls
`split`. `Text.Split`, which behaves like Python's `split(" ")`, is a reference
inverse added so that the join's round trip can be stated. Joining what
`Split` returns gives back any string (`Text.JoinSplit`). Splitting a joined
list gives back the list when no part holds a space (`Text.SplitJoin`). So the
query splits back into its words only when no genre, topic or author text
contains a space. An author typed as `칼 세이건` does not come back as one word.
`Strip` is pinned down as the unique trimmed slice. Cleaning twice is cleaning
once. `RawItem` is an inverse of `ProcessBookData` on complete items.

What the code does, in the model's terms:

- Genres and topics are lists in the order they were picked, because
  Streamlit's multiselect returns a list.
- Slashes become spaces; they are not deleted. So `시/에세이` is sent as
  `시 에세이` (`Fetch.SlashBecomesSpaceExample`).
- The blank check runs on the query before slashes are replaced. A genre list
  of just `["/"]` therefore passes the check and is sent with an empty `q`
  (`Recommend.SlashOnlyGenreSendsEmptyQuery`). The form's genre choices never
  produce such a query.

The network call is an input. `GetBookRecommendations` receives `response`,
what the fetch returned (`None` when `requests` raised). It returns the
`Request` it would send, or `None` when it sends none. "No fetch happens" is
therefore stated as `request == None`.

## Model

| member | source | states |
|---|---|---|
| `Text.StripStart` | app.py:18 | strip starts at the first character that is not whitespace; everything before it is whitespace |
| `Text.Strip` | app.py:18 | `str.strip()`, removing the characters of `Text.IsSpace`: the result is the contiguous slice of the input from `StripStart` on, with only whitespace cut away after it; it neither starts nor ends with whitespace; it is empty exactly when the input is all whitespace |
| `Text.StripUnique` | app.py:18 | any slice with only whitespace outside it and non-whitespace at both ends equals `Strip` of the string, so strip is fully determined |
| `Text.StripAvoids` | app.py:18 | stripping introduces no character that was not in the input |
| `Text.ReplaceChar` | app.py:18 | `replace` keeps the length and changes exactly the occurrences of the replaced character |
| `Text.Split` | app.py:66 | reference inverse of the join at line 66 (the code never splits), behaving like `split(" ")`: at least one piece, and no piece holds a space |
| `Text.JoinAppend` | app.py:57-66 | for `Text.Join`, the `" ".join` of lines 57, 59 and 66: joining two non-empty lists is joining each and putting exactly one space between them |
| `Text.JoinSplit` | app.py:57-66 | `Text.Join` undoes the reference `Split`: splitting at spaces then joining with single spaces gives back any string |
| `Text.SplitJoin` | app.py:57-66 | `Text.Join` is undone by the reference `Split` when no part holds a space: the joined string splits back into exactly the parts, in order |
| `Text.SplitWord` | app.py:66 | for the reference `Split`: a space-free word followed by a space is split off as one piece |
| `Text.SplitNoSpace` | app.py:66 | for the reference `Split`: a space-free string is a single piece |
| `Text.JoinAllSpace` | app.py:66-70 | a joined string is whitespace-only exactly when every part is |
| `Query.AuthorFragment` | app.py:62-63 | the author fragment `inauthor:<author>` never starts with whitespace (so an author always makes the query non-blank), holds a space exactly when the author text does, and gives the author text back after the prefix |
| `Query.CollectSearchTerms` | app.py:53-63 | the list `search_terms` built by conditional appends equals `Query.Fragments`: the fragments in order genres, topics, author, each present only when its input is non-empty; at most three; the first is the joined genres when there are genres, the last is the author fragment when there is an author |
| `Query.BuildQuery` | app.py:53-66 | the query is every genre, every topic and the author fragment, in order, joined by single spaces |
| `Query.FragmentCount` | app.py:56-63 | an absent part contributes no fragment: the count of fragments is the count of non-empty parts |
| `Query.QueryIsJoinOfWords` | app.py:53-66 | `Query.QueryText`, the join of the fragments, equals joining all words flat: one space between any two neighbours and no extra separator for absent parts |
| `Query.QuerySplitsIntoWords` | app.py:57-66 | when no genre, topic or author text holds a space, splitting the query at spaces recovers exactly genres ++ topics ++ [author fragment] |
| `Query.IsBlank` | app.py:69 | `not query.strip()` holds exactly when the query is empty or only whitespace |
| `Query.BlankIff` | app.py:56-70 | `IsBlank(QueryText(p))`, the skip test of line 69, holds if and only if there is no author and every genre and topic is whitespace-only |
| `Query.EmptyPreferencesGiveEmptyQuery` | app.py:56-70 | no genres, no topics and no author give the empty query, which is blank |
| `Query.AuthorForcesSearch` | app.py:62-70 | any non-empty author makes the query non-blank |
| `Query.RecentBookIgnored` | app.py:53-66 | changing the recently read book never changes the query |
| `Query.SingleGenreExample` | app.py:56-57 | genre `소설` alone gives the query `소설` |
| `Query.AuthorOnlyExample` | app.py:62-63 | author `김영하` alone gives `inauthor:김영하` |
| `Query.AllPartsExample` | app.py:53-66 | genre `과학`, topic `철학`, author `칼세이건` give `과학 철학 inauthor:칼세이건` |
| `Fetch.Sanitize` | app.py:18 | the cleaned query holds no `/`, has no whitespace at either end, is no longer than the input, and is empty exactly when the input was only slashes and whitespace |
| `Fetch.SlashesAndBlanks` | app.py:18 | after replacing slashes the text is whitespace-only exactly when the input was only slashes and whitespace |
| `Fetch.SanitizeKeepsOtherCharacters` | app.py:18 | between the first and last characters that are neither slash nor whitespace every input character survives in order, a slash as a space |
| `Fetch.FetchRequestParams` | app.py:18-26 | the request parameters: `q` is the cleaned query, free of `/` and of whitespace at its ends; `maxResults` is the caller's cap; `langRestrict` is `ko`; cleaning `q` again gives the same request |
| `Fetch.SanitizeFixesClean` | app.py:18 | a query without slashes and without whitespace at its ends is sent unchanged |
| `Fetch.SanitizeIdempotent` | app.py:18 | cleaning twice is the same as cleaning once |
| `Fetch.SlashBecomesSpaceExample` | app.py:18 | `시/에세이` is cleaned to `시 에세이`: the slash is replaced, not deleted |
| `Books.ProcessBookData` | app.py:35-48 | a missing `volumeInfo` gives the all-placeholder record; the thumbnail is present exactly when `imageLinks` and its `thumbnail` are; the preview link is present exactly when `previewLink` is |
| `Books.PresentFieldsCopied` | app.py:37-47 | every field present in `volumeInfo` is copied unchanged |
| `Books.MissingFieldsDefaulted` | app.py:37-47 | every missing field gets its placeholder (`제목 없음`, `["작자 미상"]`, `출판사 정보 없음`, `날짜 정보 없음`, `설명 없음`, `["분류 없음"]`); missing thumbnail or preview link gives `None` |
| `Books.MissingVolumeInfoIsEmpty` | app.py:37 | an item without `volumeInfo` and one with an empty `volumeInfo` both give the all-placeholder record |
| `Books.ProcessRawItem` | app.py:35-48 | every record is reproduced from the complete item built from it |
| `Books.RawItemOfComplete` | app.py:35-48 | a complete item is rebuilt exactly from its record, so normalising alters no field |
| `Books.MapRecords` | app.py:77 | one record per item, same length, the k-th record is the normalised k-th item |
| `Books.MapRecordsAppend` | app.py:77 | mapping a concatenation is concatenating the mappings: no reordering, merging or dropping |
| `Books.Recommendations` | app.py:74-78 | a failed fetch or an answer without `items` gives no records; otherwise the records are the items normalised one to one, in order |
| `Books.EmptyItemsGiveNothing` | app.py:74-77 | an answer with an empty `items` list gives no records |
| `Recommend.GetBookRecommendations` | app.py:50-78 | a request is sent exactly when the query is not blank; it carries the cleaned query, cap 10 and language `ko`; no request means no records; otherwise the records are those of the fetch outcome |
| `Recommend.EmptyPreferencesFetchNothing` | app.py:56-72 | with no genre, topic or author, nothing is fetched and nothing is recommended, whatever the API would answer |
| `Recommend.SlashOnlyGenreSendsEmptyQuery` | app.py:66-72 | the genre list `["/"]` passes the blank check, and its request carries an empty query |
| `Recommend.AuthorRequest` | app.py:62-72 | an author alone, free of slashes and trailing whitespace, is searched as exactly `inauthor:<author>` |

## Left out

- The Streamlit interface (`display_book_recommendation`, `get_user_preferences`, `main`, the feedback selector): presentation only.
- The HTTP exchange, `raise_for_status`, the caught `RequestException` and its `st.error` message: network I/O. The fetch outcome is the input `response`, and `None` stands for the error path.
- `urllib.parse.quote` on the query: a library function outside the repository. The `Request` holds the query before encoding. The code quotes `q` and then `requests` encodes the parameters again, so the API receives `q` encoded twice; that encoding is not modelled.
- The API key from `st.secrets` and the endpoint URL: process configuration.
- The default `max_results=5` of `fetch_books_data`: the only caller in the core passes 10.
- The unused `pandas`, `numpy` and `sklearn` imports.
- The recently read book: it is a field of `Preferences`, and no logic reads it.
- JSON `null` values and values of the wrong type: the response has an explicit schema in which a key is either missing or holds a value of the expected type. In the code a present `null` is returned as `None` instead of the placeholder, and a `null` `imageLinks` raises an error. Neither is modelled.
- Python's `str.strip()` is modelled with the whitespace set of `str.isspace`; Unicode properties beyond that set are not modelled.
