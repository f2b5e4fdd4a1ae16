/**
 * The Google News RSS search (`get_search_results.py`): the search URL is
 * built from the query and the country, the feed's entries published since a
 * cutoff become news items, and an empty result triggers one retry with the
 * query in double quotes.
 */
module SearchResults {
  import opened Wrappers
  import opened News
  import opened Text

  /** Seconds in a day, the unit of the look-back window. */
  const SecondsPerDay: int := 86400

  /** The UI language of every URL the search builds. */
  const DefaultUiLang: string := "pt-BR"

  const Separator: string := " - "
  const UnknownSource: string := "Unknown"
  const SearchBase: string := "https://news.google.com/rss/search?"

  /**
   * One feed entry: its publication time in seconds (None when the date is
   * missing or cannot be parsed), its title and its link.
   */
  datatype FeedEntry = FeedEntry(published: Option<int>, title: string, link: string)

  /** `now - timedelta(days=days)`. */
  function Cutoff(now: int, days: int): (c: int)
    ensures c == now <==> days == 0
    ensures days >= 0 ==> c <= now
    ensures days < 0 ==> c > now
  {
    now - days * SecondsPerDay
  }

  /** The entry's publication time; an unparsable date counts as published now. */
  function PubTime(e: FeedEntry, now: int): (t: int)
    ensures e.published.None? ==> t == now
    ensures e.published.Some? ==> t == e.published.value
  {
    e.published.GetOr(now)
  }

  /**
   * The (title, source) pair of an RSS title "title - source": split at the
   * last separator and strip both parts; without a separator the whole title
   * is stripped and the source is "Unknown".
   */
  function SplitTitle(full: string): (string, string) {
    var p := RFind(full, Separator);
    if p < 0 then (Strip(full), UnknownSource)
    else (Strip(full[..p]), Strip(full[p + |Separator|..]))
  }

  /** The news item made from a kept entry. */
  function ToItem(e: FeedEntry, now: int): (r: NewsItem)
    ensures (r.title, r.source) == SplitTitle(e.title)
    ensures r.url == e.link && r.pubDate == PubTime(e, now)
    ensures r.cls.None? && r.category.None?
  {
    var (title, source) := SplitTitle(e.title);
    NewsItem(title, source, e.link, PubTime(e, now), None, None)
  }

  /** `collect_search_results_from_rss`: the items of the entries published at or after the cutoff, in feed order. */
  function Collected(entries: seq<FeedEntry>, days: int, now: int): (r: seq<NewsItem>)
    ensures |r| <= |entries|
    ensures forall k :: 0 <= k < |r| ==> r[k].pubDate >= Cutoff(now, days)
  {
    if entries == [] then []
    else
      var rest := Collected(entries[..|entries| - 1], days, now);
      var e := entries[|entries| - 1];
      if PubTime(e, now) < Cutoff(now, days) then rest else rest + [ToItem(e, now)]
  }

  /** The feed-reading loop of `collect_search_results_from_rss`, with the clock read once as `now`. */
  method CollectSearchResultsFromRss(entries: seq<FeedEntry>, days: int, now: int) returns (results: seq<NewsItem>)
    ensures results == Collected(entries, days, now)
  {
    results := [];
    var cutoff := now - days * SecondsPerDay;
    for k := 0 to |entries|
      invariant results == Collected(entries[..k], days, now)
    {
      var entry := entries[k];
      assert entries[..k + 1][..k] == entries[..k];
      var pubDate := if entry.published.Some? then entry.published.value else now;
      if pubDate < cutoff {
        continue;
      }
      var title, source;
      var p := RFind(entry.title, Separator);
      ContainsIffRFind(entry.title, Separator);
      if Contains(entry.title, Separator) {
        title := Strip(entry.title[..p]);
        source := Strip(entry.title[p + |Separator|..]);
      } else {
        title := Strip(entry.title);
        source := UnknownSource;
      }
      results := results + [NewsItem(title, source, entry.link, pubDate, None, None)];
    }
    assert entries[..|entries|] == entries;
  }

  /** Collecting a concatenated feed collects each part: the filter looks at one entry at a time. */
  lemma {:induction false} CollectedAppend(a: seq<FeedEntry>, b: seq<FeedEntry>, days: int, now: int)
    ensures Collected(a + b, days, now) == Collected(a, days, now) + Collected(b, days, now)
    decreases |b|
  {
    if b == [] {
      assert a + b == a;
    } else {
      assert (a + b)[..|a + b| - 1] == a + b[..|b| - 1];
      CollectedAppend(a, b[..|b| - 1], days, now);
    }
  }

  /** A single entry is kept exactly when it was published at or after the cutoff. */
  lemma CollectedOne(e: FeedEntry, days: int, now: int)
    ensures Collected([e], days, now) == if PubTime(e, now) >= Cutoff(now, days) then [ToItem(e, now)] else []
  {
    assert [e][..0] == [];
  }

  /** An entry whose date cannot be parsed is always kept when the window is not negative. */
  lemma UndatedEntryKept(e: FeedEntry, days: int, now: int)
    requires e.published.None? && days >= 0
    ensures Collected([e], days, now) == [ToItem(e, now)]
    ensures ToItem(e, now).pubDate == now
  {
    CollectedOne(e, days, now);
  }

  /**
   * A title "title - source" splits back into its two parts, stripped, when
   * the source holds no " - " of its own and does not start with "- " (either
   * would move the last separator into the source). Hyphenated sources such
   * as "Data-Center Dynamics" qualify.
   */
  lemma SplitJoined(t: string, s: string)
    requires !Contains(s, Separator) && !(|s| >= 2 && s[..2] == "- ")
    ensures SplitTitle(t + Separator + s) == (Strip(t), Strip(s))
  {
    var full := t + Separator + s;
    var n := |t|;
    assert OccursAt(full, Separator, n) by {
      assert full[n..n + 3] == Separator;
    }
    RFindIsLast(full, Separator, n);
    forall j | n < j ensures !OccursAt(full, Separator, j) {
      NoSeparatorAfter(t, s, j);
    }
    assert RFind(full, Separator) == n;
    assert full[..n] == t;
    assert full[n + 3..] == s;
  }

  /** No separator starts after the one joining t and s. */
  lemma NoSeparatorAfter(t: string, s: string, j: int)
    requires !Contains(s, Separator) && !(|s| >= 2 && s[..2] == "- ")
    requires |t| < j
    ensures !OccursAt(t + Separator + s, Separator, j)
  {
    var full := t + Separator + s;
    var n := |t|;
    if j + 3 <= |full| {
      var w := full[j..j + 3];
      if j == n + 1 {
        assert w[0] == full[n + 1] == '-';
      } else if j == n + 2 {
        assert w[0] == ' ' && w[1] == s[0] && w[2] == s[1];
        assert s[..2] == [s[0], s[1]];
      } else {
        var i := j - n - 3;
        assert w == s[i..i + 3];
        if OccursAt(s, Separator, i) {
          FindIsFirst(s, Separator, 0, i);
        }
      }
    }
  }

  /** A source without spaces, hyphenated or not (such as "TI-Inside"), is split off whole. */
  lemma SourceWithoutSpaces(t: string, s: string)
    requires ' ' !in s
    ensures SplitTitle(t + Separator + s) == (Strip(t), Strip(s))
  {
    forall i | 0 <= i && i + 3 <= |s| ensures !OccursAt(s, Separator, i) {
      assert s[i..i + 3][0] == s[i];
    }
    assert |s| >= 2 ==> s[..2][1] == s[1];
    SplitJoined(t, s);
  }

  /** A title without a separator keeps its whole text and gets the source "Unknown". */
  lemma SplitWithoutSeparator(full: string)
    requires !Contains(full, Separator)
    ensures SplitTitle(full) == (Strip(full), UnknownSource)
  {
    ContainsIffRFind(full, Separator);
  }

  /** The country as it appears in the URL: upper-cased. */
  function CountryCode(country: string): (r: string)
    ensures |r| == |country|
    ensures forall k :: 0 <= k < |r| ==> !('a' <= r[k] <= 'z')
    ensures forall k :: 0 <= k < |r| && 'a' <= country[k] <= 'z' ==> r[k] as int == country[k] as int - 32
    ensures forall k :: 0 <= k < |r| && !('a' <= country[k] <= 'z') ==> r[k] == country[k]
  {
    Upper(country)
  }

  /** The parts, with the separator c between consecutive ones. */
  function Join(parts: seq<string>, c: char): string
    requires |parts| > 0
  {
    if |parts| == 1 then parts[0] else parts[0] + [c] + Join(parts[1..], c)
  }

  /** The four query parameters of the search URL, in order. */
  function Parameters(query: string, country: string, uiLang: string, quote: string -> string): seq<string> {
    ["q=" + quote(query), "hl=" + uiLang, "gl=" + CountryCode(country), "ceid=" + CountryCode(country) + ":" + uiLang]
  }

  /**
   * `build_google_news_rss_url`: the search endpoint followed by the
   * parameters joined with '&'. `quote` stands for `urllib.parse.quote_plus`.
   */
  function BuildUrl(query: string, country: string, uiLang: string, quote: string -> string): string {
    SearchBase + Join(Parameters(query, country, uiLang, quote), '&')
  }

  /** The parts of s between the separators c. */
  function SplitOn(s: string, c: char): (r: seq<string>)
    ensures |r| > 0
    decreases |s|
  {
    var i := Find(s, [c], 0);
    if i < 0 then [s] else [s[..i]] + SplitOn(s[i + 1..], c)
  }

  /** Splitting `a + [c] + b` with no c in a gives a, then the parts of b. */
  lemma SplitOnJoin(a: string, c: char, b: string)
    requires c !in a
    ensures SplitOn(a + [c] + b, c) == [a] + SplitOn(b, c)
  {
    var s := a + [c] + b;
    assert s[|a|..|a| + 1] == [c];
    FindIsFirst(s, [c], 0, |a|);
    forall k | 0 <= k < |a| ensures !OccursAt(s, [c], k) {
      assert s[k..k + 1][0] == s[k] == a[k];
    }
    assert s[..|a|] == a;
    assert s[|a| + 1..] == b;
  }

  /** A string without c is one part. */
  lemma SplitOnAbsent(s: string, c: char)
    requires c !in s
    ensures SplitOn(s, c) == [s]
  {
    forall k | 0 <= k < |s| ensures !OccursAt(s, [c], k) {
      assert s[k..k + 1][0] == s[k];
    }
  }

  /** Splitting joined parts that do not hold the separator gives the parts back. */
  lemma {:induction false} SplitJoin(parts: seq<string>, c: char)
    requires |parts| > 0
    requires forall k :: 0 <= k < |parts| ==> c !in parts[k]
    ensures SplitOn(Join(parts, c), c) == parts
    decreases |parts|
  {
    if |parts| == 1 {
      SplitOnAbsent(parts[0], c);
      assert parts == [parts[0]];
    } else {
      var rest := parts[1..];
      assert forall k :: 0 <= k < |rest| ==> rest[k] == parts[k + 1];
      SplitJoin(rest, c);
      SplitOnJoin(parts[0], c, Join(rest, c));
      assert parts == [parts[0]] + rest;
    }
  }

  /**
   * The query string of the URL reads back as its four parameters: the
   * encoded query, the UI language, and the upper-cased country in both the
   * `gl` and the `ceid` parameters. This needs the encoded query, the country
   * and the UI language to be free of '&', as `quote_plus` output is.
   */
  lemma UrlParameters(query: string, country: string, uiLang: string, quote: string -> string)
    requires '&' !in quote(query) && '&' !in country && '&' !in uiLang
    ensures BuildUrl(query, country, uiLang, quote)[..|SearchBase|] == SearchBase
    ensures SplitOn(BuildUrl(query, country, uiLang, quote)[|SearchBase|..], '&')
         == ["q=" + quote(query), "hl=" + uiLang, "gl=" + CountryCode(country), "ceid=" + CountryCode(country) + ":" + uiLang]
  {
    assert '&' !in CountryCode(country) by {
      forall k | 0 <= k < |country| ensures CountryCode(country)[k] != '&' {
        assert country[k] != '&';
      }
    }
    var parts := Parameters(query, country, uiLang, quote);
    assert forall k :: 0 <= k < |parts| ==> '&' !in parts[k];
    SplitJoin(parts, '&');
    var url := BuildUrl(query, country, uiLang, quote);
    assert url[|SearchBase|..] == Join(parts, '&');
  }

  /** The query of the retry: the original query in double quotes. */
  function Quoted(query: string): (r: string)
    ensures |r| == |query| + 2
    ensures r[0] == '"' && r[|r| - 1] == '"'
    ensures r[1..|r| - 1] == query
  {
    "\"" + query + "\""
  }

  /**
   * `get_search_results`: `fetch` stands for fetching and parsing the feed at
   * a URL, `now` for the clock. The `ui_lang` argument is accepted but never
   * passed on, so both URLs use the default UI language.
   */
  method GetSearchResults(query: string, days: int, country: string, uiLang: string,
                          quote: string -> string, fetch: string -> seq<FeedEntry>, now: int)
    returns (results: seq<NewsItem>)
    ensures var first := Collected(fetch(BuildUrl(query, country, DefaultUiLang, quote)), days, now);
      && (first != [] ==> results == first)
      && (first == [] ==> results == Collected(fetch(BuildUrl(Quoted(query), country, DefaultUiLang, quote)), days, now))
    ensures forall k :: 0 <= k < |results| ==> results[k].pubDate >= Cutoff(now, days)
  {
    var rssUrl := BuildUrl(query, country, DefaultUiLang, quote);
    var feed := fetch(rssUrl);
    results := CollectSearchResultsFromRss(feed, days, now);
    if results == [] {
      var quoted := Quoted(query);
      rssUrl := BuildUrl(quoted, country, DefaultUiLang, quote);
      feed := fetch(rssUrl);
      results := CollectSearchResultsFromRss(feed, days, now);
    }
  }
}
