# Repository search and ranking of the GitHub explorer

This project models the deterministic core of `streamlit_app.py`, a Streamlit
app that searches GitHub repositories. The model has two parts.

- **Search query and URL** (`search.dfy`, module `RepoSearch`). `search_repos`
  builds its query parts one after another:
  - the keyword, if it is non-empty;
  - a `language:` qualifier, unless the choice is empty or `All`. The alias
    table turns Flutter into Dart.
  - the fixed qualifier `stars:>=1000`.

  It then replaces every space in each part with `+`, joins the parts with `+`,
  and puts the result into
  `https://api.github.com/search/repositories?q=<query>&per_page=100`. Finally
  it unwraps the decoded answer. An object that has `items` gives those items.
  Any other value, including the fetcher's `{"__error__": ...}` object, is
  returned unchanged. `SearchRepos` follows these steps imperatively. The
  fetcher is a function parameter that maps a URL to a decoded JSON value.
- **Ranking rule** (`ranking.dfy`, module `RepoRanking`). These are the
  inline steps that rank a list of repository records:
  - Unless the choice is `All`, keep the records whose language equals the
    aliased choice, ignoring case. A missing or null language counts as `""`.
  - Keep the records with at least 1000 stars. A missing count counts as 0.
  - Sort by stars, most first. Python's `sorted(..., reverse=True)` is stable,
    so records with equal stars keep their order.
  - Keep the first `top_n` records.

  The sort is modelled as a stable insertion sort (`SortByStars`).
  `SortIsUniqueStableSort` proves that it is the only result that is both
  sorted this way and stable.

The ranking filters whenever the choice is not `All`. The search, by contrast,
also skips the language qualifier when the choice is empty. So with an empty
choice, the ranking keeps only records that have no language
(`MissingLanguageMatchesOnlyEmpty`). The app's select box only offers `All`,
Go, Java, Flutter and Elixir, so this case never arises there. The model
follows the code as written.

`wrappers.dfy` holds the `Option` type used for absent JSON keys.

## Model

| member | source | states |
|---|---|---|
| `RepoSearch.SearchRepos` | streamlit_app.py:30-58 | the result is the unwrapped answer that the fetcher gives for exactly the search URL of the keyword and language |
| `RepoSearch.MapLanguage` | streamlit_app.py:45-47 | the alias table yields `Dart` exactly for Flutter and Dart, and leaves every choice other than Flutter unchanged |
| `RepoSearch.QueryParts` | streamlit_app.py:38-50 | one part for a non-empty keyword (first), one `language:` part for a restricting choice (second to last), and always `stars:>=1000` last; no part is empty |
| `RepoSearch.SpaceToPlus` | streamlit_app.py:52 | every space becomes `+` and every other character is kept in place, so the length is kept and no space is left |
| `RepoSearch.QueryClosedForm` | streamlit_app.py:38-52 | the query is: the encoded keyword plus `+` (if the keyword is non-empty), then the encoded language qualifier plus `+` (if a language is chosen), then `stars:>=1000` |
| `RepoSearch.JoinEncoded` | streamlit_app.py:52 | encoding each part and joining with `+` equals joining with spaces and then encoding: the query is the space-separated search phrase with its spaces written as `+` |
| `RepoSearch.JoinNoSpace` | streamlit_app.py:52 | joining space-free parts with a separator other than a space gives a string without spaces |
| `RepoSearch.JoinLast` | streamlit_app.py:52 | a join ends with its last part, and every earlier part is followed by the separator |
| `RepoSearch.Query` | streamlit_app.py:49-52 | the query always ends with `stars:>=1000` and contains no space; its parts are spelled out by `QueryClosedForm`, `QueryKeyword` and `QueryLanguage` |
| `RepoSearch.QueryKeyword` | streamlit_app.py:40-52 | an empty keyword adds nothing; a non-empty keyword comes first, with spaces turned into `+`, followed by `+` |
| `RepoSearch.QueryLanguage` | streamlit_app.py:44-52 | an empty or `All` choice adds no language qualifier; any other choice adds exactly one `language:` qualifier, holding the encoded aliased choice |
| `RepoSearch.QueryFlutterIsDart` | streamlit_app.py:45-47 | choosing Flutter puts `language:Dart+` before the star qualifier |
| `RepoSearch.SearchUrl` | streamlit_app.py:53 | the URL is the API base with the search path, then the query, then `&per_page=100`, and the query can be read back out of it |
| `RepoSearch.UnwrapSearchAnswer` | streamlit_app.py:56-57 | an object that carries `items` yields exactly those items, whatever its other fields |
| `RepoSearch.UnwrapKeepsError` | streamlit_app.py:56-58 | the fetcher's error object `{"__error__": message}` passes through unwrapping unchanged |
| `RepoSearch.Unwrap` | streamlit_app.py:56-58 | unwrapping changes a value only when it is an object carrying `items`; a list passes through (`UnwrapSearchAnswer` and `UnwrapKeepsError` give the two outcomes) |
| `RepoRanking.Lower` | streamlit_app.py:110 | lower-casing keeps the length, turns each ASCII upper-case letter into its own lower-case letter (code point plus 32), and keeps every other character |
| `RepoRanking.LanguageMatches` | streamlit_app.py:110 | a record matches the target exactly when its language has the target's length and agrees with it character by character up to ASCII case (`SameIgnoringCase`); in particular an equal language matches |
| `RepoRanking.LowerEqual` | streamlit_app.py:110 | two strings are equal after lower-casing exactly when they have the same length and agree at every position up to ASCII case |
| `RepoRanking.FilterLanguage` | streamlit_app.py:109-110 | each record occurs in the result as often as in the input if its language matches the target case-insensitively, and not at all otherwise; the result keeps the input order (a subsequence) |
| `RepoRanking.FilterStars` | streamlit_app.py:113 | each record occurs in the result as often as in the input if it has at least 1000 stars (a missing count is 0), and not at all otherwise; the result keeps the input order (a subsequence) |
| `RepoRanking.Eligible` | streamlit_app.py:106-113 | after both filters, each record passing them occurs exactly as often as in the input, every other record not at all, and the input order is kept |
| `RepoRanking.Insert` | streamlit_app.py:116 | insertion adds exactly one occurrence of the record and grows the list by one |
| `RepoRanking.InsertSorted` | streamlit_app.py:116 | inserting into a list sorted by stars, most first, keeps it sorted |
| `RepoRanking.SortByStars` | streamlit_app.py:116 | the output is non-increasing in stars and is a permutation of the input |
| `RepoRanking.InsertStable` | streamlit_app.py:116 | an inserted record comes before every record with the same star count |
| `RepoRanking.SortStable` | streamlit_app.py:116 | for every star count, the records with that count appear in the same order in the output as in the input |
| `RepoRanking.SortIsUniqueStableSort` | streamlit_app.py:116 | any sequence that is sorted by stars and keeps the input order among equal counts equals `SortByStars` of the input |
| `RepoRanking.SortedDeterminedByKeys` | streamlit_app.py:116 | two sorted sequences that hold the same records for every star count, in the same order, are equal |
| `RepoRanking.EligibleMembers` | streamlit_app.py:106-113 | a record reaches the sort exactly when it is in the input, has at least 1000 stars, and matches the aliased language unless the choice is `All`; nothing is added |
| `RepoRanking.RankFilters` | streamlit_app.py:106-117 | every ranked record has at least 1000 stars and, unless the choice is `All`, the chosen language (case-insensitively, Flutter read as Dart) |
| `RepoRanking.Rank` | streamlit_app.py:106-117 | the ranking holds at most top_n records and is non-increasing in stars |
| `RepoRanking.RankOrderAndSize` | streamlit_app.py:116-117 | the ranking is non-increasing in stars; its length is min(top_n, number of eligible records); for each star count it shows a prefix of the eligible records with that count |
| `RepoRanking.RankKeepsInputOrderAmongTies` | streamlit_app.py:110-117 | for each star count, the ranked records with that count occur in the input in the same order |
| `RepoRanking.SubseqWithStars` | streamlit_app.py:110-116 | keeping the input order carries over to the records of each star count |
| `RepoRanking.PrefixOfSorted` | streamlit_app.py:117 | a prefix of a sorted list is sorted and a sub-multiset of it, and no record left out has more stars than the last one kept |
| `RepoRanking.RankNothingInvented` | streamlit_app.py:110-117 | the ranking is a sub-multiset of the input records |
| `RepoRanking.RankKeepsBest` | streamlit_app.py:113-117 | no eligible record left out has more stars than the last ranked one; a ranking shorter than top_n holds every eligible record |
| `RepoRanking.TopOfSorted` | streamlit_app.py:116-117 | among the first n sorted records, none left out has more stars than the last kept; taking all of them keeps the whole multiset |
| `RepoRanking.MissingLanguageMatchesOnlyEmpty` | streamlit_app.py:106-110 | a record without a language matches a choice only when the choice is the empty string |
| `RepoRanking.FlutterSelectsDart` | streamlit_app.py:108-110 | choosing Flutter keeps exactly the records whose language is `dart` in any ASCII case |

## Left out

- The HTTP fetch (`fetch_json`, streamlit_app.py:18-27) is left out. This
  covers the request, its User-Agent header, the 10-second timeout, the
  conversion of exceptions into `{"__error__": ...}` and the 300-second
  result cache. These are I/O and a library decorator. `SearchRepos` takes the
  fetch as a parameter, and `ErrorValue` only describes the shape of the error
  object.
- All Streamlit widgets and rendering are left out (sidebar, spinner, columns,
  metrics, expanders, tables, the `updated_at[:10]` and 80-character
  description slices). They are presentation only.
- The user-lookup branch (streamlit_app.py:60-104) is left out. It uses
  `username`, `get_user`, `get_repos` and `show_repos`, which the file never
  defines. Only its ranking step (lines 106-117) is modelled.
- The second language select box (line 16) is left out. It is a duplicate of
  line 12 with no logic.
- The star-history pipeline (pagination, date bucketing, cumulative series,
  truncation fix-up) is not part of this model. `streamlit_app.py` has no code
  for it.
- `RepoRanking.Lower` is ASCII only. Python's `str.lower` also lower-cases
  non-ASCII letters, so the model may not match for those.
- `RepoRanking.Repo` has no way to represent a `stargazers_count` key that is
  present but null. In Python that case raises a TypeError in the comparison.
  Other record fields (description, URL, forks) are not modelled. The ranking
  passes records through unchanged.
- `RepoRanking.Rank` takes `top_n` as a natural number. The slider limits it
  to 5-50, so Python's negative-slice behaviour does not arise.
- JSON numbers are modelled as integers only. Floating-point values are left
  out.
- Keyword characters other than spaces (such as `&` or `#`) are not
  percent-encoded, and neither is anything else; the model copies them into
  the URL unchanged, as the code does.
