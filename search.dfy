/**
  The repository search of the explorer: the search query built from an
  optional keyword and a language choice, the search URL it is placed in, and
  the unwrapping of the platform's JSON answer into its list of items.

  The HTTP fetch itself is not modelled; `SearchRepos` receives it as a
  function from URL to decoded JSON value.
*/
module RepoSearch {

  /** Base URL of the hosting platform's REST API. */
  const ApiBase: string := "https://api.github.com"

  /** Path and query-key that precede the search query in the URL. */
  const SearchPath: string := "/search/repositories?q="

  /** Fixed suffix of the search URL: one page of at most 100 results. */
  const PageSuffix: string := "&per_page=100"

  /** The star qualifier every search carries. */
  const StarsQualifier: string := "stars:>=1000"

  /** Prefix of the language qualifier. */
  const LanguageKey: string := "language:"

  /** The language choice that means "no language restriction". */
  const AllLanguages: string := "All"

  /** A decoded JSON value, as the fetcher hands it back. */
  datatype Json =
    | JNull
    | JBool(b: bool)
    | JNumber(n: int)
    | JString(s: string)
    | JArray(elems: seq<Json>)
    | JObject(fields: map<string, Json>)

  /** The value the fetcher returns when the request fails: `{"__error__": message}`. */
  function ErrorValue(message: string): Json {
    JObject(map["__error__" := JString(message)])
  }

  /** The language alias table: the platform reports Flutter projects as Dart. */
  function MapLanguage(language: string): (r: string)
    ensures r == "Dart" <==> language == "Flutter" || language == "Dart"
    ensures language != "Flutter" ==> r == language
  {
    if language == "Flutter" then "Dart" else language
  }

  /** True when the search restricts the language (a non-empty choice other than "All"). */
  predicate RestrictsLanguage(language: string) {
    language != "" && language != AllLanguages
  }

  /** Every space of `s` replaced by '+'. */
  function SpaceToPlus(s: string): (r: string)
    ensures |r| == |s| && ' ' !in r
    ensures forall i :: 0 <= i < |s| && s[i] == ' ' ==> r[i] == '+'
    ensures forall i :: 0 <= i < |s| && s[i] != ' ' ==> r[i] == s[i]
  {
    seq(|s|, i requires 0 <= i < |s| => if s[i] == ' ' then '+' else s[i])
  }

  /** `SpaceToPlus` applied to each part. */
  function EncodeParts(parts: seq<string>): seq<string> {
    seq(|parts|, i requires 0 <= i < |parts| => SpaceToPlus(parts[i]))
  }

  /** The parts separated by `sep`; no separator around a single part, "" for none. */
  function Join(parts: seq<string>, sep: char): string {
    if |parts| == 0 then ""
    else if |parts| == 1 then parts[0]
    else parts[0] + [sep] + Join(parts[1..], sep)
  }

  /** The query parts, in order: keyword, language qualifier, star qualifier. */
  function QueryParts(keyword: string, language: string): (parts: seq<string>)
    ensures |parts| == (if keyword != "" then 1 else 0) + (if RestrictsLanguage(language) then 1 else 0) + 1
    ensures parts[|parts| - 1] == StarsQualifier
    ensures keyword != "" ==> parts[0] == keyword
    ensures RestrictsLanguage(language) ==> parts[|parts| - 2] == LanguageKey + MapLanguage(language)
    ensures forall i :: 0 <= i < |parts| ==> parts[i] != ""
  {
    (if keyword != "" then [keyword] else [])
    + (if RestrictsLanguage(language) then [LanguageKey + MapLanguage(language)] else [])
    + [StarsQualifier]
  }

  /** The search query: the encoded parts joined with '+'; it has no space and ends with the star qualifier. */
  function Query(keyword: string, language: string): (q: string)
    ensures ' ' !in q
    ensures |q| >= |StarsQualifier| && q[|q| - |StarsQualifier|..] == StarsQualifier
  {
    var enc := EncodeParts(QueryParts(keyword, language));
    JoinNoSpace(enc, '+');
    SpaceToPlusNoSpace(StarsQualifier);
    assert enc == enc[..|enc| - 1] + [StarsQualifier];
    JoinLast(enc[..|enc| - 1], StarsQualifier, '+');
    Join(enc, '+')
  }

  /**
    The URL the search requests: the fixed prefix, the query and the fixed
    suffix, so that the query can be read back out of it.
  */
  function SearchUrl(keyword: string, language: string): (url: string)
    ensures |url| == |ApiBase + SearchPath| + |Query(keyword, language)| + |PageSuffix|
    ensures url[..|ApiBase + SearchPath|] == ApiBase + SearchPath
    ensures url[|url| - |PageSuffix|..] == PageSuffix
    ensures url[|ApiBase + SearchPath|..|url| - |PageSuffix|] == Query(keyword, language)
  {
    var url := ApiBase + SearchPath + Query(keyword, language) + PageSuffix;
    ThreePieces(ApiBase + SearchPath, Query(keyword, language), PageSuffix);
    url
  }

  /**
    The items of a search answer when it has them, otherwise the answer
    unchanged: it changes only an object carrying `items`, and a list passes through.
  */
  function Unwrap(data: Json): (r: Json)
    ensures r != data ==> data.JObject? && "items" in data.fields
    ensures data.JArray? ==> r == data
  {
    if data.JObject? && "items" in data.fields then data.fields["items"] else data
  }

  /**
    Searches repositories: builds the query parts step by step, encodes and
    joins them, requests the URL through `fetch` and unwraps the answer.
  */
  method SearchRepos(keyword: string, language: string, fetch: string -> Json) returns (result: Json)
    ensures result == Unwrap(fetch(SearchUrl(keyword, language)))
  {
    var qParts: seq<string> := [];
    if keyword != "" {
      qParts := qParts + [keyword];
    }
    if language != "" && language != AllLanguages {
      qParts := qParts + [LanguageKey + MapLanguage(language)];
    }
    qParts := qParts + [StarsQualifier];
    assert qParts == QueryParts(keyword, language);
    var q := Join(EncodeParts(qParts), '+');
    var url := ApiBase + SearchPath + q + PageSuffix;
    var data := fetch(url);
    if data.JObject? && "items" in data.fields {
      result := data.fields["items"];
    } else {
      result := data;
    }
  }

  // ---------------------------------------------------------------------------
  // Joining and encoding

  /** Each piece of a three-piece concatenation can be sliced back out. */
  lemma ThreePieces(a: string, b: string, c: string)
    ensures (a + b + c)[..|a|] == a
    ensures (a + b + c)[|a + b + c| - |c|..] == c
    ensures (a + b + c)[|a|..|a + b + c| - |c|] == b
  {
  }

  /** Encoding distributes over concatenation. */
  lemma SpaceToPlusAppend(a: string, b: string)
    ensures SpaceToPlus(a + b) == SpaceToPlus(a) + SpaceToPlus(b)
  {
    assert forall i :: 0 <= i < |a + b| ==> SpaceToPlus(a + b)[i] == (SpaceToPlus(a) + SpaceToPlus(b))[i];
  }

  /** Each part followed by the separator. */
  function Terminated(parts: seq<string>, sep: char): string {
    if parts == [] then "" else parts[0] + [sep] + Terminated(parts[1..], sep)
  }

  /** Joining ends with the last part, every earlier part followed by the separator. */
  lemma {:induction false} JoinLast(parts: seq<string>, last: string, sep: char)
    ensures Join(parts + [last], sep) == Terminated(parts, sep) + last
  {
    if parts != [] {
      assert (parts + [last])[1..] == parts[1..] + [last];
      JoinLast(parts[1..], last, sep);
    }
  }

  /** A string without spaces is left as it is. */
  lemma SpaceToPlusNoSpace(s: string)
    requires ' ' !in s
    ensures SpaceToPlus(s) == s
  {
  }

  /** Encoding part lists distributes over concatenation. */
  lemma EncodePartsAppend(a: seq<string>, b: seq<string>)
    ensures EncodeParts(a + b) == EncodeParts(a) + EncodeParts(b)
  {
  }

  /**
    Encoding each part and joining with '+' is the same as joining with a
    space and then encoding: the query is the space-separated search phrase
    with its spaces written as '+'.
  */
  lemma {:induction false} JoinEncoded(parts: seq<string>)
    ensures Join(EncodeParts(parts), '+') == SpaceToPlus(Join(parts, ' '))
  {
    if |parts| > 1 {
      assert EncodeParts(parts)[1..] == EncodeParts(parts[1..]);
      JoinEncoded(parts[1..]);
      SpaceToPlusAppend(parts[0] + [' '], Join(parts[1..], ' '));
      SpaceToPlusAppend(parts[0], [' ']);
    }
  }

  /** Joining space-free parts with a separator other than a space gives a space-free string. */
  lemma {:induction false} JoinNoSpace(parts: seq<string>, sep: char)
    requires sep != ' '
    requires forall i :: 0 <= i < |parts| ==> ' ' !in parts[i]
    ensures ' ' !in Join(parts, sep)
  {
    if |parts| > 1 {
      JoinNoSpace(parts[1..], sep);
    }
  }

  // ---------------------------------------------------------------------------
  // Properties of the query and the URL

  /** The keyword part of the query as it appears in the URL, with its separator. */
  function KeywordSegment(keyword: string): string {
    if keyword == "" then "" else SpaceToPlus(keyword) + "+"
  }

  /** The language part of the query as it appears in the URL, with its separator. */
  function LanguageSegment(language: string): string {
    if RestrictsLanguage(language) then SpaceToPlus(LanguageKey + MapLanguage(language)) + "+" else ""
  }

  /**
    The query spelled out segment by segment: the encoded keyword and a '+'
    when the keyword is non-empty, then the encoded language qualifier and a
    '+' when a language is chosen, then always the star qualifier last.
  */
  lemma QueryClosedForm(keyword: string, language: string)
    ensures Query(keyword, language) == KeywordSegment(keyword) + LanguageSegment(language) + StarsQualifier
  {
    var kw := if keyword != "" then [keyword] else [];
    var lang := if RestrictsLanguage(language) then [LanguageKey + MapLanguage(language)] else [];
    assert QueryParts(keyword, language) == (kw + lang) + [StarsQualifier];
    EncodePartsAppend(kw + lang, [StarsQualifier]);
    SpaceToPlusNoSpace(StarsQualifier);
    assert EncodeParts([StarsQualifier]) == [StarsQualifier];
    JoinLast(EncodeParts(kw + lang), StarsQualifier, '+');
    SegmentsClosedForm(keyword, language);
  }

  /** The keyword and language parts, each followed by '+', are the two leading segments. */
  lemma SegmentsClosedForm(keyword: string, language: string)
    ensures var kw := if keyword != "" then [keyword] else [];
      var lang := if RestrictsLanguage(language) then [LanguageKey + MapLanguage(language)] else [];
      Terminated(EncodeParts(kw + lang), '+') == KeywordSegment(keyword) + LanguageSegment(language)
  {
    var kw := if keyword != "" then [keyword] else [];
    var lang := if RestrictsLanguage(language) then [LanguageKey + MapLanguage(language)] else [];
    var enc := EncodeParts(kw + lang);
    EncodePartsAppend(kw, lang);
    if enc != [] {
      assert Terminated(enc, '+') == enc[0] + "+" + Terminated(enc[1..], '+');
      if |enc| == 2 {
        assert Terminated(enc[1..], '+') == enc[1] + "+";
      }
    }
  }

  /**
    An empty keyword contributes nothing; a non-empty keyword opens the query,
    with its spaces written as '+', followed by a '+'.
  */
  lemma QueryKeyword(keyword: string, language: string)
    ensures keyword == "" ==> Query(keyword, language) == LanguageSegment(language) + StarsQualifier
    ensures keyword != "" ==>
      Query(keyword, language) == SpaceToPlus(keyword) + "+" + LanguageSegment(language) + StarsQualifier
  {
    QueryClosedForm(keyword, language);
  }

  /**
    "All" or an empty choice adds no language qualifier; any other choice adds
    exactly one, `language:` followed by the aliased choice.
  */
  lemma QueryLanguage(keyword: string, language: string)
    ensures !RestrictsLanguage(language) ==> Query(keyword, language) == KeywordSegment(keyword) + StarsQualifier
    ensures RestrictsLanguage(language) ==>
      Query(keyword, language)
      == KeywordSegment(keyword) + ("language:" + SpaceToPlus(MapLanguage(language)) + "+") + StarsQualifier
  {
    QueryClosedForm(keyword, language);
    LanguageSegmentForm(language);
  }

  /** The language segment is `language:`, the encoded aliased choice and a '+'. */
  lemma LanguageSegmentForm(language: string)
    ensures RestrictsLanguage(language) ==>
      LanguageSegment(language) == "language:" + SpaceToPlus(MapLanguage(language)) + "+"
  {
    if RestrictsLanguage(language) {
      SpaceToPlusAppend(LanguageKey, MapLanguage(language));
      SpaceToPlusNoSpace(LanguageKey);
    }
  }

  /** Choosing Flutter searches for `language:Dart`. */
  lemma QueryFlutterIsDart(keyword: string)
    ensures Query(keyword, "Flutter") == KeywordSegment(keyword) + "language:Dart+" + StarsQualifier
  {
    assert RestrictsLanguage("Flutter") && MapLanguage("Flutter") == "Dart";
    QueryLanguage(keyword, "Flutter");
    SpaceToPlusNoSpace("Dart");
    assert "language:" + "Dart" + "+" == "language:Dart+";
  }

  // ---------------------------------------------------------------------------
  // Unwrapping the answer

  /** A search answer that carries `items`, whatever its other fields, yields exactly those items. */
  lemma UnwrapSearchAnswer(items: Json, others: map<string, Json>)
    ensures Unwrap(JObject(others["items" := items])) == items
  {
  }

  /** An error value from the fetcher passes through unchanged. */
  lemma UnwrapKeepsError(message: string)
    ensures Unwrap(ErrorValue(message)) == ErrorValue(message)
  {
    assert "items" !in ErrorValue(message).fields;
  }
}
