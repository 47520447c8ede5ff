/**
  The ranking rule applied to a list of repository records: keep the records
  of the chosen language (compared without regard to ASCII case, Flutter read
  as Dart), keep those with at least 1000 stars, sort them by star count from
  most to least with ties in their original order, and keep the first N.
*/
module RepoRanking {
  import opened Wrappers
  import RepoSearch

  /** The star threshold of the ranking. */
  const MinStars: int := 1000

  /**
    A repository record as the platform returns it: `language` is None when
    the key is absent or null, `stars` is None when `stargazers_count` is absent.
  */
  datatype Repo = Repo(name: string, language: Option<string>, stars: Option<int>)

  /** The star count of a record, 0 when it has none. */
  function Stars(r: Repo): int {
    r.stars.GetOr(0)
  }

  /** The language of a record, "" when it has none. */
  function LanguageOf(r: Repo): string {
    r.language.GetOr("")
  }

  /** ASCII lower-casing of one character. */
  function LowerChar(c: char): char {
    if 'A' <= c <= 'Z' then (c as int + 32) as char else c
  }

  /** `s` with every ASCII upper-case letter turned to lower case. */
  function Lower(s: string): (r: string)
    ensures |r| == |s|
    ensures forall i :: 0 <= i < |r| ==> !('A' <= r[i] <= 'Z')
    ensures forall i :: 0 <= i < |s| && !('A' <= s[i] <= 'Z') ==> r[i] == s[i]
    ensures forall i :: 0 <= i < |s| && 'A' <= s[i] <= 'Z' ==> r[i] as int == s[i] as int + 32
  {
    seq(|s|, i requires 0 <= i < |s| => LowerChar(s[i]))
  }

  /**
    Two characters that are equal up to ASCII case: the same character, or an
    upper-case letter and its lower-case counterpart, in either order.
  */
  predicate SameIgnoringCase(x: char, y: char) {
    || x == y
    || ('A' <= x <= 'Z' && y as int == x as int + 32)
    || ('A' <= y <= 'Z' && x as int == y as int + 32)
  }

  /** Lower-casing makes two characters equal exactly when they differ at most in case. */
  lemma LowerCharSame(x: char, y: char)
    ensures LowerChar(x) == LowerChar(y) <==> SameIgnoringCase(x, y)
  {
  }

  /** Lower-casing makes two strings equal exactly when they agree character by character up to case. */
  lemma {:induction false} LowerEqual(x: string, y: string)
    ensures Lower(x) == Lower(y) <==>
      |x| == |y| && forall i :: 0 <= i < |x| ==> SameIgnoringCase(x[i], y[i])
  {
    if |x| == |y| && forall i :: 0 <= i < |x| ==> SameIgnoringCase(x[i], y[i]) {
      forall i | 0 <= i < |x| ensures Lower(x)[i] == Lower(y)[i] {
        LowerCharSame(x[i], y[i]);
      }
    }
    if Lower(x) == Lower(y) {
      forall i | 0 <= i < |x| ensures SameIgnoringCase(x[i], y[i]) {
        assert Lower(x)[i] == Lower(y)[i];
        LowerCharSame(x[i], y[i]);
      }
    }
  }

  /** True when the record's language equals `matchLang`, ignoring case. */
  predicate LanguageMatches(r: Repo, matchLang: string)
    ensures LanguageOf(r) == matchLang ==> LanguageMatches(r, matchLang)
    ensures LanguageMatches(r, matchLang) <==>
      && |LanguageOf(r)| == |matchLang|
      && forall i :: 0 <= i < |matchLang| ==> SameIgnoringCase(LanguageOf(r)[i], matchLang[i])
  {
    LowerEqual(LanguageOf(r), matchLang);
    Lower(LanguageOf(r)) == Lower(matchLang)
  }

  /**
    `a` is obtained from `b` by dropping records: its records occur in `b`
    in the same order.
  */
  predicate IsSubseq(a: seq<Repo>, b: seq<Repo>)
    decreases |b|
  {
    if a == [] then true
    else if b == [] then false
    else (a[0] == b[0] && IsSubseq(a[1..], b[1..])) || IsSubseq(a, b[1..])
  }

  /** Every sequence is a subsequence of itself. */
  lemma {:induction false} SubseqRefl(s: seq<Repo>)
    ensures IsSubseq(s, s)
  {
    if s != [] {
      SubseqRefl(s[1..]);
    }
  }

  /** A subsequence stays one when a record is put in front of the longer sequence. */
  lemma SubseqCons(a: seq<Repo>, h: Repo, b: seq<Repo>)
    requires IsSubseq(a, b)
    ensures IsSubseq(a, [h] + b)
  {
    assert ([h] + b)[1..] == b;
  }

  /** Dropping records twice is dropping records. */
  lemma {:induction false} SubseqTrans(a: seq<Repo>, b: seq<Repo>, c: seq<Repo>)
    requires IsSubseq(a, b) && IsSubseq(b, c)
    ensures IsSubseq(a, c)
    decreases |c|
  {
    if a != [] {
      if b[0] == c[0] && IsSubseq(b[1..], c[1..]) {
        if a[0] == b[0] && IsSubseq(a[1..], b[1..]) {
          SubseqTrans(a[1..], b[1..], c[1..]);
        } else {
          SubseqTrans(a, b[1..], c[1..]);
        }
      } else {
        SubseqTrans(a, b, c[1..]);
      }
    }
  }

  /** A prefix is a subsequence. */
  lemma {:induction false} PrefixIsSubseq(a: seq<Repo>, b: seq<Repo>)
    requires a <= b
    ensures IsSubseq(a, b)
  {
    if a != [] {
      assert a[1..] <= b[1..];
      PrefixIsSubseq(a[1..], b[1..]);
    }
  }

  /** If `a` is a subsequence of `b`, so are their records of each star count. */
  lemma {:induction false} SubseqWithStars(a: seq<Repo>, b: seq<Repo>, k: int)
    requires IsSubseq(a, b)
    ensures IsSubseq(WithStars(a, k), WithStars(b, k))
    decreases |b|
  {
    if a != [] {
      if a[0] == b[0] && IsSubseq(a[1..], b[1..]) {
        SubseqWithStars(a[1..], b[1..], k);
        if Stars(a[0]) == k {
          var wa, wb := WithStars(a, k), WithStars(b, k);
          assert wa == [a[0]] + WithStars(a[1..], k);
          assert wb == [b[0]] + WithStars(b[1..], k);
          assert wa[0] == wb[0] && wa[1..] == WithStars(a[1..], k) && wb[1..] == WithStars(b[1..], k);
        } else {
          assert WithStars(a, k) == WithStars(a[1..], k);
          assert WithStars(b, k) == WithStars(b[1..], k);
        }
      } else {
        SubseqWithStars(a, b[1..], k);
        if Stars(b[0]) == k {
          assert WithStars(b, k) == [b[0]] + WithStars(b[1..], k);
          SubseqCons(WithStars(a, k), b[0], WithStars(b[1..], k));
        } else {
          assert WithStars(b, k) == WithStars(b[1..], k);
        }
      }
    }
  }

  /** The records whose language matches `matchLang`, in their order. */
  function FilterLanguage(repos: seq<Repo>, matchLang: string): (out: seq<Repo>)
    ensures forall r :: multiset(out)[r] == if LanguageMatches(r, matchLang) then multiset(repos)[r] else 0
    ensures IsSubseq(out, repos)
  {
    if repos == [] then []
    else
      var rest := FilterLanguage(repos[1..], matchLang);
      assert repos == [repos[0]] + repos[1..];
      if LanguageMatches(repos[0], matchLang) then
        assert ([repos[0]] + rest)[1..] == rest;
        [repos[0]] + rest
      else
        SubseqCons(rest, repos[0], repos[1..]);
        rest
  }

  /** The records with at least `MinStars` stars, in their order. */
  function FilterStars(repos: seq<Repo>): (out: seq<Repo>)
    ensures forall r :: multiset(out)[r] == if Stars(r) >= MinStars then multiset(repos)[r] else 0
    ensures IsSubseq(out, repos)
  {
    if repos == [] then []
    else
      var rest := FilterStars(repos[1..]);
      assert repos == [repos[0]] + repos[1..];
      if Stars(repos[0]) >= MinStars then
        assert ([repos[0]] + rest)[1..] == rest;
        [repos[0]] + rest
      else
        SubseqCons(rest, repos[0], repos[1..]);
        rest
  }

  /** True when a record passes both filters for the language choice. */
  predicate Passes(r: Repo, language: string) {
    && Stars(r) >= MinStars
    && (language != RepoSearch.AllLanguages ==> LanguageMatches(r, RepoSearch.MapLanguage(language)))
  }

  /**
    The records that enter the sort: language filter unless "All", then the
    star filter. Each passing record occurs as often as in the input, each
    other record not at all, and the input order is kept.
  */
  function Eligible(repos: seq<Repo>, language: string): (e: seq<Repo>)
    ensures forall r :: multiset(e)[r] == if Passes(r, language) then multiset(repos)[r] else 0
    ensures IsSubseq(e, repos)
  {
    var byLanguage :=
      if language != RepoSearch.AllLanguages then FilterLanguage(repos, RepoSearch.MapLanguage(language))
      else repos;
    SubseqRefl(repos);
    SubseqTrans(FilterStars(byLanguage), byLanguage, repos);
    FilterStars(byLanguage)
  }

  /** Non-increasing in star count. */
  predicate SortedDesc(s: seq<Repo>) {
    forall i, j :: 0 <= i < j < |s| ==> Stars(s[i]) >= Stars(s[j])
  }

  /** `r` placed before the first record of `s` that has at most its stars. */
  function Insert(r: Repo, s: seq<Repo>): (out: seq<Repo>)
    ensures |out| == |s| + 1
    ensures multiset(out) == multiset(s) + multiset{r}
  {
    if s == [] || Stars(s[0]) <= Stars(r) then [r] + s
    else
      assert s == [s[0]] + s[1..];
      [s[0]] + Insert(r, s[1..])
  }

  /** Inserting into a sorted sequence keeps it sorted. */
  lemma {:induction false} InsertSorted(r: Repo, s: seq<Repo>)
    requires SortedDesc(s)
    ensures SortedDesc(Insert(r, s))
  {
    if s != [] && Stars(s[0]) > Stars(r) {
      var tail := Insert(r, s[1..]);
      InsertSorted(r, s[1..]);
      forall i | 0 <= i < |tail| ensures Stars(tail[i]) <= Stars(s[0]) {
        assert multiset(tail)[tail[i]] > 0;
        assert tail[i] == r || tail[i] in s[1..];
      }
      assert Insert(r, s) == [s[0]] + tail;
    }
  }

  /** The records ordered by star count from most to least; equal counts keep their order. */
  function SortByStars(s: seq<Repo>): (out: seq<Repo>)
    ensures |out| == |s|
    ensures SortedDesc(out)
    ensures multiset(out) == multiset(s)
  {
    if s == [] then []
    else
      assert s == [s[0]] + s[1..];
      var rest := SortByStars(s[1..]);
      InsertSorted(s[0], rest);
      Insert(s[0], rest)
  }

  /** The first `topN` records of the sorted eligible records, or all of them when fewer. */
  function Rank(repos: seq<Repo>, language: string, topN: nat): (out: seq<Repo>)
    ensures |out| <= topN
    ensures SortedDesc(out)
  {
    var sorted := SortByStars(Eligible(repos, language));
    PrefixOfSorted(sorted, if topN < |sorted| then topN else |sorted|);
    sorted[..if topN < |sorted| then topN else |sorted|]
  }

  // ---------------------------------------------------------------------------
  // Stability of the sort

  /** The records of `s` whose star count is `k`, in their order. */
  function WithStars(s: seq<Repo>, k: int): seq<Repo> {
    if s == [] then []
    else (if Stars(s[0]) == k then [s[0]] else []) + WithStars(s[1..], k)
  }

  /** Inserting `r` puts it in front of every record with its star count. */
  lemma {:induction false} InsertStable(r: Repo, s: seq<Repo>, k: int)
    ensures WithStars(Insert(r, s), k) == (if Stars(r) == k then [r] else []) + WithStars(s, k)
  {
    var out := Insert(r, s);
    if s == [] || Stars(s[0]) <= Stars(r) {
      assert out[0] == r && out[1..] == s;
    } else {
      var rest := Insert(r, s[1..]);
      assert out[0] == s[0] && out[1..] == rest;
      InsertStable(r, s[1..], k);
      if Stars(s[0]) == k {
        assert WithStars(out, k) == [s[0]] + WithStars(rest, k);
        assert WithStars(rest, k) == WithStars(s[1..], k);
        assert WithStars(s, k) == [s[0]] + WithStars(s[1..], k);
      } else {
        assert WithStars(out, k) == WithStars(rest, k);
        assert WithStars(s, k) == WithStars(s[1..], k);
      }
    }
  }

  /**
    The sort is stable: for every star count, the records with that count
    appear in the output in the same order as in the input.
  */
  lemma {:induction false} SortStable(s: seq<Repo>, k: int)
    ensures WithStars(SortByStars(s), k) == WithStars(s, k)
  {
    if s != [] {
      SortStable(s[1..], k);
      InsertStable(s[0], SortByStars(s[1..]), k);
    }
  }

  /** In a sorted sequence no record has more stars than the first one. */
  lemma {:induction false} HeadIsMaximal(s: seq<Repo>)
    requires SortedDesc(s) && s != []
    ensures WithStars(s, Stars(s[0])) != []
    ensures forall k :: k > Stars(s[0]) ==> WithStars(s, k) == []
  {
    forall k | k > Stars(s[0]) ensures WithStars(s, k) == [] {
      NoneWithStars(s, k);
    }
  }

  /** No record has star count `k` when all have fewer. */
  lemma {:induction false} NoneWithStars(s: seq<Repo>, k: int)
    requires forall i :: 0 <= i < |s| ==> Stars(s[i]) < k
    ensures WithStars(s, k) == []
  {
    if s != [] {
      NoneWithStars(s[1..], k);
    }
  }

  /** Two non-empty sorted sequences that agree on the records of every star count start alike. */
  lemma HeadsAgree(t: seq<Repo>, u: seq<Repo>)
    requires SortedDesc(t) && SortedDesc(u) && t != [] && u != []
    requires forall k :: WithStars(t, k) == WithStars(u, k)
    ensures t[0] == u[0]
  {
    HeadIsMaximal(t);
    HeadIsMaximal(u);
    var a := Stars(t[0]);
    assert WithStars(t, Stars(u[0])) != [];
    assert WithStars(u, a) != [];
    assert Stars(u[0]) == a;
    assert WithStars(t, a)[0] == t[0];
    assert WithStars(u, a)[0] == u[0];
  }

  /** Dropping the first record drops it from the records of its star count. */
  lemma WithStarsTail(s: seq<Repo>, k: int)
    requires s != []
    ensures WithStars(s[1..], k) == WithStars(s, k)[if Stars(s[0]) == k then 1 else 0..]
  {
  }

  /** Two sorted sequences that agree on the records of every star count are equal. */
  lemma {:induction false} SortedDeterminedByKeys(t: seq<Repo>, u: seq<Repo>)
    requires SortedDesc(t) && SortedDesc(u)
    requires forall k :: WithStars(t, k) == WithStars(u, k)
    ensures t == u
    decreases |t|
  {
    if t == [] || u == [] {
      if t != [] { HeadIsMaximal(t); }
      if u != [] { HeadIsMaximal(u); }
    } else {
      HeadsAgree(t, u);
      forall k ensures WithStars(t[1..], k) == WithStars(u[1..], k) {
        WithStarsTail(t, k);
        WithStarsTail(u, k);
      }
      SortedDeterminedByKeys(t[1..], u[1..]);
      assert t == [t[0]] + t[1..];
      assert u == [u[0]] + u[1..];
    }
  }

  /**
    `SortByStars` is THE stable descending sort: any sequence ordered by star
    count from most to least that keeps the input order among equal counts is
    exactly its result.
  */
  lemma SortIsUniqueStableSort(s: seq<Repo>, t: seq<Repo>)
    requires SortedDesc(t)
    requires forall k :: WithStars(t, k) == WithStars(s, k)
    ensures t == SortByStars(s)
  {
    forall k ensures WithStars(t, k) == WithStars(SortByStars(s), k) {
      SortStable(s, k);
    }
    SortedDeterminedByKeys(t, SortByStars(s));
  }

  /** Selecting by star count distributes over concatenation. */
  lemma {:induction false} WithStarsAppend(a: seq<Repo>, b: seq<Repo>, k: int)
    ensures WithStars(a + b, k) == WithStars(a, k) + WithStars(b, k)
  {
    if a == [] {
      assert a + b == b;
    } else {
      assert (a + b)[0] == a[0];
      assert (a + b)[1..] == a[1..] + b;
      WithStarsAppend(a[1..], b, k);
    }
  }

  // ---------------------------------------------------------------------------
  // Properties of the ranking

  /**
    Corollary of `Eligible`'s exact counts, stated as membership: a record is
    eligible exactly when it is in the input, has at least 1000 stars and,
    unless the choice is "All", matches the (aliased) language; nothing is
    added to the input.
  */
  lemma EligibleMembers(repos: seq<Repo>, language: string)
    ensures forall r :: r in Eligible(repos, language) <==>
      && r in repos
      && Stars(r) >= MinStars
      && (language != RepoSearch.AllLanguages ==> LanguageMatches(r, RepoSearch.MapLanguage(language)))
    ensures multiset(Eligible(repos, language)) <= multiset(repos)
  {
    var e := Eligible(repos, language);
    forall r ensures multiset(e)[r] <= multiset(repos)[r]
      && (multiset(e)[r] > 0 <==>
        && multiset(repos)[r] > 0
        && Stars(r) >= MinStars
        && (language != RepoSearch.AllLanguages ==> LanguageMatches(r, RepoSearch.MapLanguage(language))))
    {
    }
    forall r ensures r in e <==> multiset(e)[r] > 0 { }
    forall r ensures r in repos <==> multiset(repos)[r] > 0 { }
  }

  /** A prefix of a sorted sequence: still sorted, taken from it, and per star count a prefix. */
  lemma PrefixOfSorted(sorted: seq<Repo>, n: nat)
    requires SortedDesc(sorted) && n <= |sorted|
    ensures SortedDesc(sorted[..n])
    ensures multiset(sorted[..n]) <= multiset(sorted)
    ensures forall k :: WithStars(sorted[..n], k) <= WithStars(sorted, k)
    ensures n > 0 ==> forall r :: r in sorted && r !in sorted[..n] ==> Stars(r) <= Stars(sorted[n - 1])
  {
    var out := sorted[..n];
    assert sorted == out + sorted[n..];
    assert multiset(sorted) == multiset(out) + multiset(sorted[n..]);
    forall k ensures WithStars(out, k) <= WithStars(sorted, k) {
      WithStarsAppend(out, sorted[n..], k);
    }
    if n > 0 {
      forall r | r in sorted && r !in out ensures Stars(r) <= Stars(sorted[n - 1]) {
        forall j | 0 <= j < n ensures sorted[j] in out {
          assert out[j] == sorted[j];
        }
      }
    }
  }

  /** Every ranked record has at least 1000 stars and, unless the choice is "All", the chosen language. */
  lemma RankFilters(repos: seq<Repo>, language: string, topN: nat)
    ensures forall r :: r in Rank(repos, language, topN) ==>
      && Stars(r) >= MinStars
      && (language != RepoSearch.AllLanguages ==> LanguageMatches(r, RepoSearch.MapLanguage(language)))
  {
    var e := Eligible(repos, language);
    var sorted := SortByStars(e);
    var out := Rank(repos, language, topN);
    EligibleMembers(repos, language);
    PrefixOfSorted(sorted, |out|);
    forall r | r in out ensures r in e {
      assert multiset(out)[r] > 0;
      assert multiset(e)[r] > 0;
    }
  }

  /**
    The ranking is ordered by stars from most to least and holds
    min(topN, number of eligible records) records; among records with equal
    stars it shows the first ones of the eligible list, in their order.
  */
  lemma RankOrderAndSize(repos: seq<Repo>, language: string, topN: nat)
    ensures var out := Rank(repos, language, topN);
      var e := Eligible(repos, language);
      && SortedDesc(out)
      && |out| == (if topN < |e| then topN else |e|)
      && forall k :: WithStars(out, k) <= WithStars(e, k)
  {
    var e := Eligible(repos, language);
    var sorted := SortByStars(e);
    var out := Rank(repos, language, topN);
    PrefixOfSorted(sorted, |out|);
    forall k ensures WithStars(out, k) <= WithStars(e, k) {
      SortStable(e, k);
    }
  }

  /**
    Among ranked records with equal stars, the input order is kept: for
    every star count, the ranked records with that count occur in the input
    in the same order.
  */
  lemma RankKeepsInputOrderAmongTies(repos: seq<Repo>, language: string, topN: nat)
    ensures forall k :: IsSubseq(WithStars(Rank(repos, language, topN), k), WithStars(repos, k))
  {
    var e := Eligible(repos, language);
    var out := Rank(repos, language, topN);
    forall k ensures IsSubseq(WithStars(out, k), WithStars(repos, k)) {
      RankOrderAndSize(repos, language, topN);
      PrefixIsSubseq(WithStars(out, k), WithStars(e, k));
      SubseqWithStars(e, repos, k);
      SubseqTrans(WithStars(out, k), WithStars(e, k), WithStars(repos, k));
    }
  }

  /** The ranking invents and alters nothing: each record occurs at most as often as in the input. */
  lemma RankNothingInvented(repos: seq<Repo>, language: string, topN: nat)
    ensures multiset(Rank(repos, language, topN)) <= multiset(repos)
  {
    var e := Eligible(repos, language);
    var sorted := SortByStars(e);
    EligibleMembers(repos, language);
    PrefixOfSorted(sorted, |Rank(repos, language, topN)|);
  }

  /**
    No eligible record left out of the ranking has more stars than the last
    ranked one, and when the ranking is shorter than topN it holds every
    eligible record.
  */
  lemma RankKeepsBest(repos: seq<Repo>, language: string, topN: nat)
    ensures var out := Rank(repos, language, topN);
      && (|out| > 0 ==>
          forall r :: r in Eligible(repos, language) && r !in out ==> Stars(r) <= Stars(out[|out| - 1]))
      && (|out| < topN ==> multiset(out) == multiset(Eligible(repos, language)))
  {
    var e := Eligible(repos, language);
    TopOfSorted(e, |Rank(repos, language, topN)|);
  }

  /** The first `n` records of the sorted list: none left out has more stars than the last kept. */
  lemma TopOfSorted(e: seq<Repo>, n: nat)
    requires n <= |e|
    ensures var out := SortByStars(e)[..n];
      && (n > 0 ==> forall r :: r in e && r !in out ==> Stars(r) <= Stars(out[n - 1]))
      && (n == |e| ==> multiset(out) == multiset(e))
  {
    var sorted := SortByStars(e);
    PrefixOfSorted(sorted, n);
    SameMembers(e, sorted);
    if n == |e| {
      assert sorted[..n] == sorted;
    }
  }

  /** Sequences with the same multiset have the same members. */
  lemma SameMembers(a: seq<Repo>, b: seq<Repo>)
    requires multiset(a) == multiset(b)
    ensures forall r :: r in a <==> r in b
  {
    forall r ensures r in a <==> r in b {
      assert r in a <==> multiset(a)[r] > 0;
      assert r in b <==> multiset(b)[r] > 0;
    }
  }

  /**
    A record without a language matches a language choice other than "All"
    only when that choice is the empty string.
  */
  lemma MissingLanguageMatchesOnlyEmpty(r: Repo, language: string)
    requires r.language.None?
    ensures LanguageMatches(r, RepoSearch.MapLanguage(language)) <==> language == ""
  {
    if language != "" {
      assert |Lower(RepoSearch.MapLanguage(language))| > 0;
    }
  }

  /** Choosing Flutter keeps exactly the records whose language is "dart" in any ASCII case. */
  lemma FlutterSelectsDart(r: Repo)
    ensures LanguageMatches(r, RepoSearch.MapLanguage("Flutter")) <==> Lower(LanguageOf(r)) == "dart"
  {
    assert Lower("Dart") == "dart";
  }
}
