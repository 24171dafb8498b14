/**
 * The string rules of the Dramacool provider (DramacoolProvider.kt): URL
 * resolution against the catalog origin, the link classifier that decides a
 * listing item's kind and whether it points at an episode rather than a show,
 * the episode-number regex, the show-title cleanup, pagination, the episode
 * list of a detail page and the link-loading step that hands embed URLs to the
 * host's extractors.
 *
 * Everything the host does (fetching, HTML selection, JSON-LD parsing, the
 * extractors themselves) enters as plain data or as a function parameter.
 */
module Dramacool {
  import opened Wrappers
  import opened Text
  import opened Numbers

  /** The provider's configured catalog origin (`mainUrl`). */
  const MainUrl: string := "https://asianctv.co"

  datatype TvType = Movie | TvShow | AsianDrama

  // ================================================================ fixUrl

  /** Index just past the run of characters other than `/` starting at `i` (greedy `[^/]*`). */
  function HostEnd(s: string, i: nat): (j: nat)
    requires i <= |s|
    ensures i <= j <= |s|
    ensures forall k :: i <= k < j ==> s[k] != '/'
    ensures j == |s| || s[j] == '/'
    decreases |s| - i
  {
    if i < |s| && s[i] != '/' then HostEnd(s, i + 1) else i
  }

  /**
   * Group 1 of the regex `^(https?://[^/]+)` applied to `mainUrl`: scheme and
   * host. When the regex does not match, `mainUrl` itself.
   */
  function CurrentDomain(mainUrl: string): (r: string)
    ensures StartsWith(mainUrl, r)
    ensures |r| < |mainUrl| ==> mainUrl[|r|] == '/'
    ensures StartsWith(mainUrl, "http") ==> StartsWith(r, "http")
    ensures StartsWith(mainUrl, "https://") && |mainUrl| > 8 && mainUrl[8] != '/' ==>
              |r| > 8 && forall k :: 8 <= k < |r| ==> r[k] != '/'
  {
    if StartsWith(mainUrl, "https://") && |mainUrl| > 8 && mainUrl[8] != '/' then
      mainUrl[..HostEnd(mainUrl, 8)]
    else if StartsWith(mainUrl, "http://") && |mainUrl| > 7 && mainUrl[7] != '/' then
      mainUrl[..HostEnd(mainUrl, 7)]
    else
      mainUrl
  }

  /**
   * The other two outcomes of the regex: for `http://host...` the domain is
   * scheme and host, and when the regex does not match it is `mainUrl`.
   */
  lemma {:induction false} CurrentDomainHttpOrWhole(mainUrl: string)
    ensures StartsWith(mainUrl, "http://") && |mainUrl| > 7 && mainUrl[7] != '/' ==>
              |CurrentDomain(mainUrl)| > 7 && forall k :: 7 <= k < |CurrentDomain(mainUrl)| ==> CurrentDomain(mainUrl)[k] != '/'
    ensures (!(StartsWith(mainUrl, "https://") && |mainUrl| > 8 && mainUrl[8] != '/') &&
             !(StartsWith(mainUrl, "http://") && |mainUrl| > 7 && mainUrl[7] != '/')) ==> CurrentDomain(mainUrl) == mainUrl
  {
    if StartsWith(mainUrl, "http://") && |mainUrl| > 7 && mainUrl[7] != '/' {
      assert !StartsWith(mainUrl, "https://") by { assert mainUrl[4] == ':'; }
    }
  }

  /**
   * The `when` of `fixUrl`, before trimming: the link always ends the result,
   * an `http` link is kept, and against an `http` origin the result is absolute.
   */
  function ResolveAgainst(domain: string, url: string): (r: string)
    ensures EndsWith(r, url)
    ensures StartsWith(url, "http") ==> r == url
    ensures StartsWith(domain, "http") ==> StartsWith(r, "http")
  {
    if StartsWith(url, "//") then
      assert url[0] == '/';
      assert ("https:" + url)[..4] == "http";
      "https:" + url
    else if StartsWith(url, "/") then
      assert url[0] == '/';
      assert (domain + url)[..|domain|] == domain;
      domain + url
    else if !StartsWith(url, "http") then
      assert (domain + "/" + url)[..|domain|] == domain;
      domain + "/" + url
    else url
  }

  /**
   * `fixUrl`: a protocol-relative link gets `https:`, a root-relative link
   * gets the origin of `mainUrl`, any other link not starting with `http` is
   * taken as a path under that origin; the result is trimmed. With an `http`
   * origin configured every resolved link is absolute, whatever the input.
   */
  function FixUrl(mainUrl: string, url: string): (r: string)
    ensures StartsWith(mainUrl, "http") ==> StartsWith(r, "http")
  {
    var raw := ResolveAgainst(CurrentDomain(mainUrl), url);
    TrimKeepsPrefix(raw, "http");
    Trim(raw)
  }

  /** `fixUrlNull`: absent stays absent, present is resolved. */
  function FixUrlNull(mainUrl: string, url: Option<string>): (r: Option<string>)
    ensures r.Some? <==> url.Some?
    ensures r.Some? ==> r.value == FixUrl(mainUrl, url.value)
    ensures r.Some? && StartsWith(mainUrl, "http") ==> StartsWith(r.value, "http")
  {
    match url
    case None => None
    case Some(u) => Some(FixUrl(mainUrl, u))
  }

  /** A link that is already absolute comes back unchanged up to surrounding whitespace. */
  lemma {:induction false} FixUrlKeepsAbsolute(mainUrl: string, url: string)
    requires StartsWith(url, "http")
    ensures FixUrl(mainUrl, url) == Trim(url)
  {
    FirstCharDecides(url, "http", "/");
    FirstCharDecides(url, "http", "//");
    assert ResolveAgainst(CurrentDomain(mainUrl), url) == url;
  }

  /** Resolving a resolved link changes nothing. */
  lemma {:induction false} FixUrlIdempotent(mainUrl: string, url: string)
    requires StartsWith(mainUrl, "http")
    ensures FixUrl(mainUrl, FixUrl(mainUrl, url)) == FixUrl(mainUrl, url)
  {
    var r := FixUrl(mainUrl, url);
    FixUrlKeepsAbsolute(mainUrl, r);
    TrimIdempotent(ResolveAgainst(CurrentDomain(mainUrl), url));
  }

  /**
   * How each relative form of a trimmed, non-empty link is resolved: the
   * protocol-relative form against `https:`, the root-relative form against
   * the scheme and host of `mainUrl`, a bare path below that origin.
   */
  lemma {:induction false} FixUrlResolvesRelative(mainUrl: string, url: string)
    requires StartsWith(mainUrl, "http")
    requires |url| > 0 && !IsWhitespace(url[0]) && !IsWhitespace(url[|url| - 1])
    ensures StartsWith(url, "//") ==> FixUrl(mainUrl, url) == "https:" + url
    ensures StartsWith(url, "/") && !StartsWith(url, "//") ==>
              FixUrl(mainUrl, url) == CurrentDomain(mainUrl) + url
    ensures !StartsWith(url, "/") && !StartsWith(url, "http") ==>
              FixUrl(mainUrl, url) == CurrentDomain(mainUrl) + "/" + url
    ensures StartsWith(url, "http") ==> FixUrl(mainUrl, url) == url
  {
    var domain := CurrentDomain(mainUrl);
    var raw := ResolveAgainst(domain, url);
    assert domain[0] == 'h';
    assert raw[0] == 'h' && raw[|raw| - 1] == url[|url| - 1] by {
      if StartsWith(url, "//") {
        assert raw == "https:" + url;
      } else if StartsWith(url, "/") {
        assert raw == domain + url;
      } else if !StartsWith(url, "http") {
        assert raw == domain + "/" + url;
      } else {
        assert raw == url;
      }
    }
    TrimFixed(raw);
  }

  /** The configured origin is already bare scheme and host. */
  lemma {:induction false} MainUrlIsOrigin()
    ensures CurrentDomain(MainUrl) == MainUrl
  {
    assert StartsWith(MainUrl, "https://");
    assert HostEnd(MainUrl, 8) == |MainUrl|;
  }

  // ============================================================ getLinkInfo

  /**
   * One listing item (`ul.list-episode-item li`, `ul.list-drama li`) as the
   * selectors see it. An anchor field is None when no such element exists and
   * holds the `href` attribute otherwise ("" when the attribute is missing);
   * the text fields hold the element text of `span.type` and `h3.title`.
   */
  datatype ListingElement = ListingElement(
    imgAnchorHref: Option<string>,   // first `a.img`
    anchorHref: Option<string>,      // first `a`
    typeSpan: Option<string>,        // `span.type` text
    h3Title: Option<string>,         // `h3.title` text
    lazyPoster: Option<string>,      // `data-original` of the first `img.lazy`
    imgSrc: Option<string>)          // `src` of the first `img`

  datatype LinkInfo = LinkInfo(url: string, tvType: TvType, isDirectEpisodeLink: bool)

  predicate MovieUrl(url: string) {
    ContainsIgnoreCase(url, "/movie/") || ContainsIgnoreCase(url, "-movie-")
  }

  predicate DetailUrl(url: string) {
    ContainsIgnoreCase(url, "/drama-detail/")
  }

  predicate KshowMarked(url: string, typeSpan: Option<string>) {
    ContainsIgnoreCase(url, "/kshow/") || typeSpan == Some("KSHOW")
  }

  /** The case-sensitive episode test of the classifier's third rule. */
  predicate EpisodeShaped(url: string) {
    EndsWith(url, ".html") || Contains(url, "-episode-")
  }

  predicate MovieLabelled(h3Title: Option<string>, typeSpan: Option<string>) {
    (h3Title.Some? && ContainsIgnoreCase(h3Title.value, "movie")) || typeSpan == Some("MOVIE")
  }

  /**
   * The ordered `when` of getLinkInfo. `typeSpan` is the span text already
   * upper-cased. Each kind is characterised on its own by the ensures clauses.
   */
  function ClassifyLink(url: string, typeSpan: Option<string>, h3Title: Option<string>): (t: TvType)
    ensures t == Movie <==>
              MovieUrl(url) ||
              (!KshowMarked(url, typeSpan) && !DetailUrl(url) && !EpisodeShaped(url) && MovieLabelled(h3Title, typeSpan))
    ensures t == TvShow <==> !MovieUrl(url) && KshowMarked(url, typeSpan)
    ensures t == AsianDrama <==>
              !MovieUrl(url) && !KshowMarked(url, typeSpan) &&
              (DetailUrl(url) || EpisodeShaped(url) || !MovieLabelled(h3Title, typeSpan))
  {
    if MovieUrl(url) then Movie
    else if KshowMarked(url, typeSpan) then TvShow
    else if DetailUrl(url) then AsianDrama
    else if !DetailUrl(url) && EpisodeShaped(url) then AsianDrama
    else if MovieLabelled(h3Title, typeSpan) then Movie
    else AsianDrama
  }

  /** The link getLinkInfo analyses: the explicit URL, else the `href` of `a.img`, else of `a`. */
  function ChosenUrl(element: Option<ListingElement>, initialUrl: Option<string>): Option<string>
  {
    if initialUrl.Some? then initialUrl
    else if element.None? then None
    else if element.value.imgAnchorHref.Some? then element.value.imgAnchorHref
    else element.value.anchorHref
  }

  /** The `span.type` text, upper-cased, of the element if any. */
  function TypeSpanOf(element: Option<ListingElement>): Option<string>
  {
    if element.Some? && element.value.typeSpan.Some? then Some(Upper(element.value.typeSpan.value)) else None
  }

  /** The `h3.title` text of the element if any. */
  function H3TitleOf(element: Option<ListingElement>): Option<string>
  {
    if element.Some? then element.value.h3Title else None
  }

  /**
   * `getLinkInfo`: null for a missing or blank link; otherwise the link, its
   * kind, and whether it is an episode page that must be resolved back to its
   * show (never for a movie, never for a detail page).
   */
  function GetLinkInfo(element: Option<ListingElement>, initialUrl: Option<string>): (r: Option<LinkInfo>)
    ensures r.None? <==> ChosenUrl(element, initialUrl).None? || IsBlank(ChosenUrl(element, initialUrl).value)
    ensures r.Some? ==> r.value.url == ChosenUrl(element, initialUrl).value
    ensures r.Some? ==> r.value.tvType == ClassifyLink(r.value.url, TypeSpanOf(element), H3TitleOf(element))
    ensures r.Some? ==>
              (r.value.isDirectEpisodeLink <==>
                 !DetailUrl(r.value.url) && r.value.tvType != Movie &&
                 (EndsWith(r.value.url, ".html") || ContainsIgnoreCase(r.value.url, "-episode-")))
  {
    match ChosenUrl(element, initialUrl)
    case None => None
    case Some(url) =>
      if IsBlank(url) then None
      else
        var tvType := ClassifyLink(url, TypeSpanOf(element), H3TitleOf(element));
        var direct := !DetailUrl(url) &&
                      (EndsWith(url, ".html") || ContainsIgnoreCase(url, "-episode-")) &&
                      tvType != Movie;
        Some(LinkInfo(url, tvType, direct))
  }

  /** A direct episode link is a drama or a show, and never a detail page. */
  lemma {:induction false} DirectLinkIsEpisodeOfShow(element: Option<ListingElement>, initialUrl: Option<string>)
    requires GetLinkInfo(element, initialUrl).Some?
    requires GetLinkInfo(element, initialUrl).value.isDirectEpisodeLink
    ensures GetLinkInfo(element, initialUrl).value.tvType in {AsianDrama, TvShow}
    ensures !ContainsIgnoreCase(GetLinkInfo(element, initialUrl).value.url, "/drama-detail/")
  {
  }

  // ===================================================== extractEpisodeNumber

  /**
   * The regex `(?:ep(?:isode)?\s*)(\d+)` (IGNORE_CASE) tried at position `i`:
   * the start of group 1 when it matches there. The optional `isode` is tried
   * first, then its omission, as the regex engine backtracks.
   */
  function EpMatchAt(s: string, i: nat): (r: Option<nat>)
    ensures r.Some? ==> i + 2 <= r.value < |s| && IsDigit(s[r.value])
  {
    if !OccursAtIgnoreCase(s, "ep", i) then None
    else if OccursAtIgnoreCase(s, "isode", i + 2) && SpaceRunEnd(s, i + 7) < |s| && IsDigit(s[SpaceRunEnd(s, i + 7)]) then
      Some(SpaceRunEnd(s, i + 7))
    else if SpaceRunEnd(s, i + 2) < |s| && IsDigit(s[SpaceRunEnd(s, i + 2)]) then
      Some(SpaceRunEnd(s, i + 2))
    else None
  }

  datatype EpMatch = EpMatch(start: nat, digits: nat)

  /** Regex `find` from `from`: the leftmost position where the episode regex matches. */
  function FindEp(s: string, from: nat): (r: Option<EpMatch>)
    ensures r.Some? ==> from <= r.value.start && EpMatchAt(s, r.value.start) == Some(r.value.digits)
    ensures r.Some? ==> forall j :: from <= j < r.value.start ==> EpMatchAt(s, j).None?
    ensures r.None? ==> forall j :: from <= j ==> EpMatchAt(s, j).None?
    decreases |s| - from
  {
    if from + 2 > |s| then None
    else match EpMatchAt(s, from)
      case Some(d) => Some(EpMatch(from, d))
      case None => FindEp(s, from + 1)
  }

  /**
   * `extractEpisodeNumber`: null for null text or when the regex finds
   * nothing; otherwise the Int value of the first match's digit run, or null
   * when that run overflows an Int.
   */
  function ExtractEpisodeNumber(text: Option<string>): (r: Option<int>)
    ensures text.None? ==> r.None?
    ensures text.Some? && FindEp(text.value, 0).None? ==> r.None?
    ensures r.Some? ==> 0 <= r.value <= IntMax
    ensures text.Some? && FindEp(text.value, 0).Some? ==>
              var s, d := text.value, FindEp(text.value, 0).value.digits;
              var run := s[d..DigitRunEnd(s, d)];
              AllDigits(run) && (r.Some? <==> DigitsValue(run) <= IntMax) && (r.Some? ==> r.value == DigitsValue(run))
  {
    match text
    case None => None
    case Some(s) =>
      match FindEp(s, 0)
      case None => None
      case Some(m) =>
        var run := s[m.digits..DigitRunEnd(s, m.digits)];
        assert IsDigit(run[0]);
        ToIntOrNull(run)
  }

  /** "Episode <n>" at the start of a title is read back as n. */
  lemma {:induction false} EpisodeNumberOfLabel(n: nat, tail: string)
    requires n <= IntMax
    requires tail == [] || !IsDigit(tail[0])
    ensures ExtractEpisodeNumber(Some("Episode " + NatToString(n) + tail)) == Some(n)
  {
    var digits := NatToString(n);
    var s := "Episode " + digits + tail;
    assert OccursAtIgnoreCase(s, "ep", 0) by {
      assert s[0..2] == "Ep";
    }
    assert OccursAtIgnoreCase(s, "isode", 2) by {
      assert s[2..7] == "isode";
    }
    assert SpaceRunEnd(s, 8) == 8 by {
      assert s[8] == digits[0];
    }
    assert SpaceRunEnd(s, 7) == 8;
    assert EpMatchAt(s, 0) == Some(8);
    assert FindEp(s, 0) == Some(EpMatch(0, 8));
    assert DigitRunEnd(s, 8) == 8 + |digits| by {
      DigitRunAcross(s, 8, digits);
    }
    assert s[8..8 + |digits|] == digits;
    NatToStringValue(n);
  }

  // ================================================================ titles

  /**
   * The regex `\s+<kw>\s+\d+$` (IGNORE_CASE) tried at position `i`. Both
   * `\s+` runs are greedy and nothing after them can be a space, so trying
   * them maximally decides the match.
   */
  predicate LabelMatchAt(s: string, kw: string, i: nat)
    requires |kw| > 0
  {
    i < |s| && IsRegexSpace(s[i]) &&
    var a := SpaceRunEnd(s, i);
    OccursAtIgnoreCase(s, kw, a) &&
    var c := SpaceRunEnd(s, a + |kw|);
    c > a + |kw| && c < |s| && DigitRunEnd(s, c) == |s|
  }

  /** `replace(Regex("""\s+<kw>\s+\d+$"""), "")`: the leftmost match runs to the end, so at most one is cut. */
  function StripTrailingLabel(s: string, kw: string, from: nat): (r: string)
    requires |kw| > 0 && from <= |s|
    ensures |r| <= |s| && r == s[..|r|]
    ensures |r| < |s| ==> from <= |r| && LabelMatchAt(s, kw, |r|)
    ensures forall j :: from <= j < |r| ==> !LabelMatchAt(s, kw, j)
    decreases |s| - from
  {
    if from == |s| then s
    else if LabelMatchAt(s, kw, from) then s[..from]
    else StripTrailingLabel(s, kw, from + 1)
  }

  /** A title that does not end in a digit is never cut. */
  lemma {:induction false} StripNeedsTrailingDigit(s: string, kw: string, from: nat)
    requires |kw| > 0 && from <= |s|
    requires s == [] || !IsDigit(s[|s| - 1])
    ensures StripTrailingLabel(s, kw, from) == s
    decreases |s| - from
  {
    if from < |s| {
      StripNeedsTrailingDigit(s, kw, from + 1);
    }
  }

  /**
   * The show title of a listing item that links straight to an episode
   * (lines 164-167): the `h3.title` text without a trailing "Episode <n>" or
   * "EP <n>", trimmed; "Unknown Show" when there is no title.
   */
  function EpisodeItemTitle(h3Title: Option<string>): (r: string)
    ensures h3Title.None? ==> r == "Unknown Show"
    ensures h3Title.Some? ==> r == [] || (!IsWhitespace(r[0]) && !IsWhitespace(r[|r| - 1]))
  {
    match h3Title
    case None => "Unknown Show"
    case Some(t) =>
      var noEpisode := StripTrailingLabel(t, "Episode", 0);
      Trim(StripTrailingLabel(noEpisode, "EP", 0))
  }

  /** The cleanup only ever cuts a suffix: the show title is a prefix of the item title, trimmed. */
  lemma {:induction false} EpisodeItemTitleIsPrefix(t: string)
    ensures exists n :: 0 <= n <= |t| && EpisodeItemTitle(Some(t)) == Trim(t[..n])
  {
    var noEpisode := StripTrailingLabel(t, "Episode", 0);
    var noEp := StripTrailingLabel(noEpisode, "EP", 0);
    assert noEp == t[..|noEp|];
    assert EpisodeItemTitle(Some(t)) == Trim(t[..|noEp|]);
  }

  // ============================================================ pagination

  /**
   * `getMainPage`'s page URL: page 1 (or below) is the category path itself;
   * later pages append `/page/<n>/` after dropping one trailing slash.
   */
  function PageUrl(data: string, page: int): (r: string)
    ensures page <= 1 ==> r == data
    ensures page > 1 ==> EndsWith(r, "/page/" + NatToString(page) + "/")
    ensures page > 1 ==>
              r[..|r| - |"/page/" + NatToString(page) + "/"|] == (if EndsWith(data, "/") then data[..|data| - 1] else data)
  {
    if page <= 1 then data
    else
      var base := RemoveSuffix(data, "/");
      var suffix := "/page/" + NatToString(page) + "/";
      assert EndsWith(data, "/") ==> base == data[..|data| - 1] by {
        if EndsWith(data, "/") {
          assert base + "/" == data;
          assert (base + "/")[..|base|] == base;
        }
      }
      assert (base + suffix)[..|base|] == base;
      assert (base + suffix)[|base|..] == suffix;
      base + suffix
  }

  /** The page number can be read back from the page URL. */
  lemma {:induction false} PageUrlCarriesPage(data: string, page: int)
    requires page > 1
    ensures var r := PageUrl(data, page);
            var tail := NatToString(page) + "/";
            EndsWith(r, tail) && AllDigits(r[|r| - |tail|..|r| - 1]) &&
            DigitsValue(r[|r| - |tail|..|r| - 1]) == page
  {
    var r := PageUrl(data, page);
    var digits := NatToString(page);
    var tail := digits + "/";
    assert r == RemoveSuffix(data, "/") + "/page/" + tail;
    assert r[|r| - |tail|..|r| - 1] == digits;
    NatToStringValue(page);
  }

  // ========================================================== listing items

  /** A search or home-page result: title, show URL, kind and poster. */
  datatype SearchEntry = SearchEntry(title: string, url: string, tvType: TvType, posterUrl: Option<string>)

  /**
   * One listing item on the home page or in search results (lines 158-186):
   * an item linking straight to an episode is resolved back to its show via
   * `detailOf` (the episode-page lookup, a host fetch) and its title is cleaned;
   * any other item keeps its own link and trimmed title. Items without a usable
   * link or show URL are dropped.
   */
  function ListingItem(mainUrl: string, e: ListingElement, detailOf: string -> Option<string>): (r: Option<SearchEntry>)
    ensures GetLinkInfo(Some(e), None).None? ==> r.None?
    ensures GetLinkInfo(Some(e), None).Some? ==>
              var info := GetLinkInfo(Some(e), None).value;
              (!info.isDirectEpisodeLink ==> r.Some? && r.value.url == FixUrl(mainUrl, info.url)) &&
              (info.isDirectEpisodeLink ==>
                 (r.Some? <==> detailOf(info.url).Some? && !IsBlank(detailOf(info.url).value)) &&
                 (r.Some? ==> r.value.url == FixUrl(mainUrl, detailOf(info.url).value)
                              && r.value.title == EpisodeItemTitle(e.h3Title))) &&
              (!info.isDirectEpisodeLink ==> r.value.title == (if e.h3Title.Some? then Trim(e.h3Title.value) else "Unknown")) &&
              (r.Some? ==> r.value.tvType == info.tvType)
    ensures r.Some? ==> r.value.posterUrl == FixUrlNull(mainUrl, if e.lazyPoster.Some? then e.lazyPoster else e.imgSrc)
    ensures r.Some? && StartsWith(mainUrl, "http") ==> StartsWith(r.value.url, "http")
  {
    match GetLinkInfo(Some(e), None)
    case None => None
    case Some(info) =>
      var poster := if e.lazyPoster.Some? then e.lazyPoster else e.imgSrc;
      var title := if info.isDirectEpisodeLink then EpisodeItemTitle(e.h3Title)
                   else if e.h3Title.Some? then Trim(e.h3Title.value) else "Unknown";
      var detail := if info.isDirectEpisodeLink then detailOf(info.url) else Some(info.url);
      if detail.None? || IsBlank(detail.value) then None
      else Some(SearchEntry(title, FixUrl(mainUrl, detail.value), info.tvType, FixUrlNull(mainUrl, poster)))
  }

  /** Kotlin `mapNotNull`: `f` applied to each element in order, the nulls dropped. */
  function FilterMap<A, B>(xs: seq<A>, f: A -> Option<B>): (r: seq<B>)
    ensures |r| <= |xs|
  {
    if xs == [] then []
    else
      var rest := FilterMap(xs[1..], f);
      match f(xs[0])
      case None => rest
      case Some(y) => [y] + rest
  }

  /** What holds of every non-null result of `f` holds of every kept element. */
  lemma {:induction false} FilterMapAll<A, B>(xs: seq<A>, f: A -> Option<B>, P: B -> bool)
    requires forall x :: f(x).Some? ==> P(f(x).value)
    ensures forall k :: 0 <= k < |FilterMap(xs, f)| ==> P(FilterMap(xs, f)[k])
  {
    if xs != [] {
      FilterMapAll(xs[1..], f, P);
      var rest := FilterMap(xs[1..], f);
      if f(xs[0]).Some? {
        assert FilterMap(xs, f) == [f(xs[0]).value] + rest;
        assert forall k :: 1 <= k < |FilterMap(xs, f)| ==> FilterMap(xs, f)[k] == rest[k - 1];
      }
    }
  }

  /** `mapNotNull` of two lists one after the other is the two results one after the other. */
  lemma {:induction false} FilterMapConcat<A, B>(a: seq<A>, b: seq<A>, f: A -> Option<B>)
    ensures FilterMap(a + b, f) == FilterMap(a, f) + FilterMap(b, f)
    decreases |a|
  {
    if a == [] {
      assert a + b == b;
    } else {
      assert (a + b)[0] == a[0];
      assert (a + b)[1..] == a[1..] + b;
      FilterMapConcat(a[1..], b, f);
    }
  }

  /** The result list of a listing page: items mapped in page order, dropped ones skipped. */
  function ListingEntries(mainUrl: string, elements: seq<ListingElement>, detailOf: string -> Option<string>): (r: seq<SearchEntry>)
    ensures |r| <= |elements|
    ensures StartsWith(mainUrl, "http") ==> forall k :: 0 <= k < |r| ==> StartsWith(r[k].url, "http")
  {
    var item := e => ListingItem(mainUrl, e, detailOf);
    FilterMapAll(elements, item, (entry: SearchEntry) => StartsWith(mainUrl, "http") ==> StartsWith(entry.url, "http"));
    FilterMap(elements, item)
  }

  /** The first listing element gives its entry, if any, ahead of the entries of the rest, in page order. */
  lemma {:induction false} ListingEntriesCons(mainUrl: string, e: ListingElement, rest: seq<ListingElement>,
                                              detailOf: string -> Option<string>)
    ensures ListingEntries(mainUrl, [e] + rest, detailOf) ==
            (if ListingItem(mainUrl, e, detailOf).Some? then [ListingItem(mainUrl, e, detailOf).value] else []) +
            ListingEntries(mainUrl, rest, detailOf)
  {
    assert ([e] + rest)[0] == e;
    assert ([e] + rest)[1..] == rest;
  }

  /**
   * The recommendations of a detail page (lines 296-308): items that are not
   * direct episode links and have a title, at most fifteen.
   */
  function Recommendation(mainUrl: string, e: ListingElement): (r: Option<SearchEntry>)
    ensures r.Some? <==> GetLinkInfo(Some(e), None).Some? && !GetLinkInfo(Some(e), None).value.isDirectEpisodeLink && e.h3Title.Some?
    ensures r.Some? ==>
              var info := GetLinkInfo(Some(e), None).value;
              r.value.url == FixUrl(mainUrl, info.url) && r.value.title == Trim(e.h3Title.value) &&
              r.value.tvType == info.tvType
    ensures r.Some? ==> r.value.posterUrl == FixUrlNull(mainUrl, if e.lazyPoster.Some? then e.lazyPoster else e.imgSrc)
    ensures r.Some? && StartsWith(mainUrl, "http") ==> StartsWith(r.value.url, "http")
  {
    match GetLinkInfo(Some(e), None)
    case None => None
    case Some(info) =>
      if info.isDirectEpisodeLink || e.h3Title.None? then None
      else
        var poster := if e.lazyPoster.Some? then e.lazyPoster else e.imgSrc;
        Some(SearchEntry(Trim(e.h3Title.value), FixUrl(mainUrl, info.url), info.tvType, FixUrlNull(mainUrl, poster)))
  }

  /** `mapNotNull` of the recommendation rule, in page order; every URL absolute for an `http` origin. */
  function AllRecommendations(mainUrl: string, elements: seq<ListingElement>): (r: seq<SearchEntry>)
    ensures |r| <= |elements|
    ensures StartsWith(mainUrl, "http") ==> forall k :: 0 <= k < |r| ==> StartsWith(r[k].url, "http")
  {
    var item := e => Recommendation(mainUrl, e);
    FilterMapAll(elements, item, (entry: SearchEntry) => StartsWith(mainUrl, "http") ==> StartsWith(entry.url, "http"));
    FilterMap(elements, item)
  }

  /** The first element gives its recommendation, if any, ahead of those of the rest, in page order. */
  lemma {:induction false} AllRecommendationsCons(mainUrl: string, e: ListingElement, rest: seq<ListingElement>)
    ensures AllRecommendations(mainUrl, [e] + rest) ==
            (if Recommendation(mainUrl, e).Some? then [Recommendation(mainUrl, e).value] else []) +
            AllRecommendations(mainUrl, rest)
  {
    assert ([e] + rest)[0] == e;
    assert ([e] + rest)[1..] == rest;
  }

  /** `take(15)` of the recommendations. */
  function Recommendations(mainUrl: string, elements: seq<ListingElement>): (r: seq<SearchEntry>)
    ensures |r| <= 15 && |r| <= |AllRecommendations(mainUrl, elements)| && |r| <= |elements|
    ensures r == AllRecommendations(mainUrl, elements)[..|r|]
    ensures |r| < 15 ==> r == AllRecommendations(mainUrl, elements)
    ensures StartsWith(mainUrl, "http") ==> forall k :: 0 <= k < |r| ==> StartsWith(r[k].url, "http")
  {
    var all := AllRecommendations(mainUrl, elements);
    if |all| <= 15 then all else all[..15]
  }

  // ================================================================== load

  /**
   * The detail URL `load` works on (lines 252-263): a URL without
   * `/drama-detail/` is recovered through `recover` (the episode-page lookup),
   * and `load` gives up when that fails.
   */
  function LoadDetailUrl(mainUrl: string, url: string, recover: string -> Option<string>): (r: Option<string>)
    ensures DetailUrl(url) ==> r == Some(FixUrl(mainUrl, url))
    ensures !DetailUrl(url) ==> (r.None? <==> recover(url).None?)
    ensures !DetailUrl(url) && r.Some? ==> r.value == FixUrl(mainUrl, recover(url).value)
    ensures r.Some? && StartsWith(mainUrl, "http") ==> StartsWith(r.value, "http")
  {
    if !DetailUrl(url) then
      match recover(url)
      case None => None
      case Some(recovered) => Some(FixUrl(mainUrl, recovered))
    else Some(FixUrl(mainUrl, url))
  }

  /**
   * The kind `load` reports (lines 312-323): a page without an episode list is
   * a movie; otherwise the classifier's kind of the detail URL, with
   * AsianDrama as fallback.
   */
  function ShowType(detailUrl: string, hasEpisodes: bool): (t: TvType)
    ensures !hasEpisodes ==> t == Movie
    ensures hasEpisodes && !IsBlank(detailUrl) ==> t == ClassifyLink(detailUrl, None, None)
    ensures hasEpisodes && IsBlank(detailUrl) ==> t == AsianDrama
  {
    if !hasEpisodes then Movie
    else match GetLinkInfo(None, Some(detailUrl))
      case Some(info) => info.tvType
      case None => AsianDrama
  }

  /** For a resolved (absolute) detail URL the classifier always answers, so the fallback is never used. */
  lemma {:induction false} ShowTypeFallbackUnused(detailUrl: string)
    requires StartsWith(detailUrl, "http")
    ensures GetLinkInfo(None, Some(detailUrl)).Some?
  {
    assert !IsWhitespace(detailUrl[0]) by {
      assert detailUrl[0] == 'h';
    }
  }

  /**
   * One element of the episode list (`ul.list-episode-item-2.all-episode li`):
   * the `href` of its first `a` (None when there is no `a`) and the
   * `h3.title` text.
   */
  datatype EpisodeElement = EpisodeElement(anchorHref: Option<string>, title: Option<string>)

  datatype Episode = Episode(data: string, name: string, episode: Option<int>)

  /** One episode (lines 328-339): dropped without a non-blank link. */
  function MakeEpisode(mainUrl: string, e: EpisodeElement): (r: Option<Episode>)
    ensures r.Some? <==> e.anchorHref.Some? && !IsBlank(e.anchorHref.value)
    ensures r.Some? ==> r.value.data == FixUrl(mainUrl, e.anchorHref.value)
    ensures r.Some? ==> r.value.episode == ExtractEpisodeNumber(if e.title.Some? then Some(Trim(e.title.value)) else None)
  {
    match e.anchorHref
    case None => None
    case Some(link) =>
      if IsBlank(link) then None
      else
        var epTitle := if e.title.Some? then Some(Trim(e.title.value)) else None;
        var epNum := ExtractEpisodeNumber(epTitle);
        var fallback := "Episode " + (if epNum.Some? then IntToString(epNum.value) else "?");
        Some(Episode(FixUrl(mainUrl, link), epTitle.GetOr(fallback), epNum))
  }

  /**
   * The name of an episode is its trimmed title; the numbered fallback name
   * never appears, because without a title there is no number either.
   */
  lemma {:induction false} EpisodeNameIsTitleOrUnknown(mainUrl: string, e: EpisodeElement)
    requires MakeEpisode(mainUrl, e).Some?
    ensures e.title.Some? ==> MakeEpisode(mainUrl, e).value.name == Trim(e.title.value)
    ensures e.title.None? ==> MakeEpisode(mainUrl, e).value.name == "Episode ?"
                              && MakeEpisode(mainUrl, e).value.episode.None?
  {
    var link := e.anchorHref.value;
    if e.title.Some? {
      var t := Trim(e.title.value);
      assert MakeEpisode(mainUrl, e) == Some(Episode(FixUrl(mainUrl, link), t, ExtractEpisodeNumber(Some(t))));
    } else {
      assert ExtractEpisodeNumber(None) == None;
      assert "Episode " + "?" == "Episode ?";
      assert MakeEpisode(mainUrl, e) == Some(Episode(FixUrl(mainUrl, link), "Episode ?", None));
    }
  }

  /** `mapNotNull` over the episode elements, in page order; every link absolute for an `http` origin. */
  function KeptEpisodes(mainUrl: string, elements: seq<EpisodeElement>): (r: seq<Episode>)
    ensures |r| <= |elements|
    ensures StartsWith(mainUrl, "http") ==> forall k :: 0 <= k < |r| ==> StartsWith(r[k].data, "http")
  {
    var item := e => MakeEpisode(mainUrl, e);
    FilterMapAll(elements, item, (ep: Episode) => StartsWith(mainUrl, "http") ==> StartsWith(ep.data, "http"));
    FilterMap(elements, item)
  }

  /** The first episode element is kept exactly when it makes an episode, ahead of the episodes of the rest. */
  lemma {:induction false} KeptEpisodesCons(mainUrl: string, e: EpisodeElement, rest: seq<EpisodeElement>)
    ensures KeptEpisodes(mainUrl, [e] + rest) ==
            (if MakeEpisode(mainUrl, e).Some? then [MakeEpisode(mainUrl, e).value] else []) + KeptEpisodes(mainUrl, rest)
  {
    assert ([e] + rest)[0] == e;
    assert ([e] + rest)[1..] == rest;
  }

  /** `reversed()`: the element at `k` comes from the mirrored position. */
  function Reverse<T>(s: seq<T>): (r: seq<T>)
    ensures |r| == |s|
    ensures forall k :: 0 <= k < |r| ==> r[k] == s[|s| - 1 - k]
  {
    if s == [] then [] else Reverse(s[1..]) + [s[0]]
  }

  /**
   * The episode list of a detail page: exactly the kept episodes in the
   * opposite order of the page, every link absolute for an `http` origin.
   */
  function EpisodeList(mainUrl: string, elements: seq<EpisodeElement>): (r: seq<Episode>)
    ensures var kept := KeptEpisodes(mainUrl, elements);
            |r| == |kept| && forall k :: 0 <= k < |r| ==> r[k] == kept[|kept| - 1 - k]
    ensures StartsWith(mainUrl, "http") ==> forall k :: 0 <= k < |r| ==> StartsWith(r[k].data, "http")
  {
    Reverse(KeptEpisodes(mainUrl, elements))
  }

  // ============================================================= loadLinks

  /**
   * An episode watch page as `loadLinks` reads it: the `data-video`
   * attribute of each server tab (`div.muti_link ul li[data-video]`) in page
   * order, and the `src` of the default player iframe when there is one.
   */
  datatype EpisodePage = EpisodePage(serverVideos: seq<string>, defaultIframe: Option<string>)

  /** One hand-over to the host's `loadExtractor`: embed URL and referer. */
  datatype ExtractorCall = ExtractorCall(url: string, referer: string)

  /** A server tab's embed URL: kept when it starts with `http`, resolved otherwise. */
  function ServerEmbedUrl(mainUrl: string, video: string): string
  {
    if StartsWith(video, "http") then video else FixUrl(mainUrl, video)
  }

  /** The calls made for the server tabs, in page order; blank tabs are skipped. */
  function ServerCalls(mainUrl: string, videos: seq<string>, referer: string): (r: seq<ExtractorCall>)
    ensures |r| <= |videos|
    ensures forall k :: 0 <= k < |r| ==> r[k].referer == referer
    ensures StartsWith(mainUrl, "http") ==> forall k :: 0 <= k < |r| ==> StartsWith(r[k].url, "http")
  {
    if videos == [] then []
    else
      var last := videos[|videos| - 1];
      var before := ServerCalls(mainUrl, videos[..|videos| - 1], referer);
      if IsBlank(last) then before else before + [ExtractorCall(ServerEmbedUrl(mainUrl, last), referer)]
  }

  /**
   * Everything `loadLinks` hands to the host's extractors for `data`: nothing
   * for a detail page or a page that could not be fetched (`page` None), the
   * server tabs when there are any, otherwise the default iframe if it is not
   * blank.
   */
  function LinkCalls(mainUrl: string, data: string, page: Option<EpisodePage>): (r: seq<ExtractorCall>)
    ensures DetailUrl(data) || page.None? ==> r == []
    ensures forall k :: 0 <= k < |r| ==> r[k].referer == FixUrl(mainUrl, data)
    ensures StartsWith(mainUrl, "http") ==> forall k :: 0 <= k < |r| ==> StartsWith(r[k].url, "http")
  {
    if DetailUrl(data) || page.None? then []
    else
      var referer := FixUrl(mainUrl, data);
      var p := page.value;
      if |p.serverVideos| > 0 then ServerCalls(mainUrl, p.serverVideos, referer)
      else IframeCalls(mainUrl, p.defaultIframe, referer)
  }

  /** The default player iframe's call, when it has a non-blank `src`. */
  function IframeCalls(mainUrl: string, iframe: Option<string>, referer: string): (r: seq<ExtractorCall>)
    ensures |r| <= 1 && (r != [] <==> iframe.Some? && !IsBlank(iframe.value))
    ensures r != [] ==> r[0] == ExtractorCall(FixUrl(mainUrl, iframe.value), referer)
  {
    if iframe.Some? && !IsBlank(iframe.value) then [ExtractorCall(FixUrl(mainUrl, iframe.value), referer)]
    else []
  }

  /** Some call was accepted by an extractor. */
  predicate AnyAccepted(calls: seq<ExtractorCall>, accepts: ExtractorCall -> bool) {
    exists k :: 0 <= k < |calls| && accepts(calls[k])
  }

  /**
   * `loadLinks`. `page` is the fetched watch page of `fixUrl(data)` (None when
   * the fetch failed), `accepts` the host extractor's verdict on one call (an
   * exception reads as false). Returns whether some source was loaded, the URL
   * that was fetched, if any, and the calls made, in order.
   */
  method LoadLinks(mainUrl: string, data: string, page: Option<EpisodePage>, accepts: ExtractorCall -> bool)
    returns (loaded: bool, fetched: Option<string>, calls: seq<ExtractorCall>)
    ensures DetailUrl(data) ==> !loaded && fetched.None? && calls == []
    ensures !DetailUrl(data) ==> fetched == Some(FixUrl(mainUrl, data))
    ensures calls == LinkCalls(mainUrl, data, page)
    ensures loaded <==> AnyAccepted(calls, accepts)
  {
    calls := [];
    fetched := None;
    if ContainsIgnoreCase(data, "/drama-detail/") {
      return false, fetched, calls;
    }
    var sourcesLoaded := false;
    var fixedDataUrl := FixUrl(mainUrl, data);
    fetched := Some(fixedDataUrl);
    if page.None? {
      return sourcesLoaded, fetched, calls;
    }
    var servers := page.value.serverVideos;
    if |servers| > 0 {
      sourcesLoaded, calls := LoadServers(mainUrl, servers, fixedDataUrl, accepts);
    } else {
      var iframeUrl := page.value.defaultIframe;
      if iframeUrl.Some? && !IsBlank(iframeUrl.value) {
        var call := ExtractorCall(FixUrl(mainUrl, iframeUrl.value), fixedDataUrl);
        AnyAcceptedAppend([], call, accepts);
        calls := [call];
        sourcesLoaded := accepts(call);
      }
    }
    loaded := sourcesLoaded;
  }

  /**
   * The server-tab branch of `loadLinks`: each tab with a non-blank
   * `data-video` is handed to the extractor, resolved first when it does not
   * start with `http`; the result is whether any extractor accepted.
   */
  method LoadServers(mainUrl: string, servers: seq<string>, referer: string, accepts: ExtractorCall -> bool)
    returns (loaded: bool, calls: seq<ExtractorCall>)
    ensures calls == ServerCalls(mainUrl, servers, referer)
    ensures loaded <==> AnyAccepted(calls, accepts)
  {
    calls := [];
    loaded := false;
    var i := 0;
    while i < |servers|
      invariant 0 <= i <= |servers|
      invariant calls == ServerCalls(mainUrl, servers[..i], referer)
      invariant loaded <==> AnyAccepted(calls, accepts)
    {
      ServerCallsStep(mainUrl, servers, i, referer);
      var videoUrl := servers[i];
      if !IsBlank(videoUrl) {
        if !StartsWith(videoUrl, "http") {
          videoUrl := FixUrl(mainUrl, videoUrl);
        }
        var call := ExtractorCall(videoUrl, referer);
        AnyAcceptedAppend(calls, call, accepts);
        calls := calls + [call];
        loaded := loaded || accepts(call);
      }
      i := i + 1;
    }
    assert servers[..i] == servers;
  }

  /** One more server tab extends the calls by at most its own call. */
  lemma {:induction false} ServerCallsStep(mainUrl: string, servers: seq<string>, i: nat, referer: string)
    requires i < |servers|
    ensures ServerCalls(mainUrl, servers[..i + 1], referer) ==
              if IsBlank(servers[i]) then ServerCalls(mainUrl, servers[..i], referer)
              else ServerCalls(mainUrl, servers[..i], referer) + [ExtractorCall(ServerEmbedUrl(mainUrl, servers[i]), referer)]
  {
    assert servers[..i + 1][..i] == servers[..i];
  }

  lemma {:induction false} AnyAcceptedAppend(calls: seq<ExtractorCall>, call: ExtractorCall, accepts: ExtractorCall -> bool)
    ensures AnyAccepted(calls + [call], accepts) <==> AnyAccepted(calls, accepts) || accepts(call)
  {
    var all := calls + [call];
    assert all[|calls|] == call;
    if AnyAccepted(calls, accepts) {
      var k :| 0 <= k < |calls| && accepts(calls[k]);
      assert all[k] == calls[k];
    }
  }

  /** A detail page is refused before anything is fetched or handed on. */
  lemma {:induction false} DetailPageRefused(mainUrl: string, data: string, page: Option<EpisodePage>, accepts: ExtractorCall -> bool)
    requires ContainsIgnoreCase(data, "/drama-detail/")
    ensures LinkCalls(mainUrl, data, page) == [] && !AnyAccepted(LinkCalls(mainUrl, data, page), accepts)
  {
  }
}
