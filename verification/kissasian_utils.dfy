/**
 * The helpers of the Kissasian scraper (`KissasianUtils` in
 * demonstratorz/KissAsianProvider.kt): the stream-type test, URL fixing
 * against the fixed site host, title cleanup, the branch choice of
 * `extractVideos`, and the three-pass scan of an iframe page that collects
 * candidate stream URLs while skipping blacklisted embed hosts.
 *
 * The host's collaborators enter as function parameters: `hostOf` is
 * `String.getHost`, `generate` is `M3u8Helper.generateM3u8`, `m3u8Matches`
 * gives the values of the m3u8 regex's `findAll` on one script, and
 * `parseSources` is `tryParseJson<List<VideoSource>>`. What the callback and
 * `loadExtractor` receive is returned as a sequence of emissions.
 */
module KissasianUtils {
  import opened Wrappers
  import opened Text
  import opened Numbers

  /** Hosts whose embeds are handed to the host's own extractors. */
  const SupportedStreams: seq<string> := ["vidmoly", "streamtape", "mycloud"]

  /** Embed hosts the iframe scan refuses. */
  const EmbedBlacklist: seq<string> := ["mp4upload.com", "streamsb.net", "dood.to", "videobin.co", "ok.ru"]

  /** The site origin root-relative links are resolved against. */
  const SiteOrigin: string := "https://kissasian.com.lv"

  // ============================================================ getVideoType

  /** `getVideoType`: "hls" for an m3u8 playlist, else "mp4" for an mp4 file, else "iframe". */
  function GetVideoType(url: string): (r: string)
    ensures r == "hls" <==> Contains(url, ".m3u8")
    ensures r == "mp4" <==> !Contains(url, ".m3u8") && Contains(url, ".mp4")
    ensures r == "iframe" <==> !Contains(url, ".m3u8") && !Contains(url, ".mp4")
  {
    if Contains(url, ".m3u8") then "hls"
    else if Contains(url, ".mp4") then "mp4"
    else "iframe"
  }

  // ================================================================= fixUrl

  /**
   * `String.fixUrl`: empty stays empty; a protocol-relative link gets
   * `https:`, a root-relative one the site origin, any other link not
   * starting with `http` gets `https://`; an `http` link is kept.
   */
  function FixUrl(s: string): (r: string)
    ensures s == [] <==> r == []
    ensures s != [] ==> StartsWith(r, "http")
    ensures EndsWith(r, s)
  {
    if s == [] then []
    else if StartsWith(s, "//") then "https:" + s
    else if StartsWith(s, "/") then SiteOrigin + s
    else if !StartsWith(s, "http") then "https://" + s
    else s
  }

  /** Each form of link is completed with the matching prefix. */
  lemma {:induction false} FixUrlForms(s: string)
    requires s != []
    ensures StartsWith(s, "//") ==> FixUrl(s) == "https:" + s
    ensures StartsWith(s, "/") && !StartsWith(s, "//") ==> FixUrl(s) == "https://kissasian.com.lv" + s
    ensures !StartsWith(s, "/") && !StartsWith(s, "http") ==> FixUrl(s) == "https://" + s
    ensures StartsWith(s, "http") ==> FixUrl(s) == s
  {
    if StartsWith(s, "http") {
      FirstCharDecides(s, "http", "/");
      FirstCharDecides(s, "http", "//");
    } else if StartsWith(s, "//") {
      assert s[..1] == "/";
    }
  }

  /** Fixing a fixed link changes nothing. */
  lemma {:induction false} FixUrlIdempotent(s: string)
    ensures FixUrl(FixUrl(s)) == FixUrl(s)
  {
    var r := FixUrl(s);
    if r != [] {
      FixUrlForms(r);
    }
  }

  // ============================================================= cleanTitle

  /** A match of the regex `Episode \d+` starts at `i`: the eight characters of `Episode `, then a digit. */
  predicate EpisodeTokenAt(s: string, i: nat) {
    i + 8 < |s| && s[i] == 'E' && s[i + 1] == 'p' && s[i + 2] == 'i' && s[i + 3] == 's'
    && s[i + 4] == 'o' && s[i + 5] == 'd' && s[i + 6] == 'e' && s[i + 7] == ' ' && IsDigit(s[i + 8])
  }

  /**
   * `replace(Regex("Episode \\d+"), "")` from index `from`: scanning left to
   * right, each match (with its digit run taken greedily) is cut out.
   */
  function RemoveEpisodeTokens(s: string, from: nat): (r: string)
    requires from <= |s|
    ensures |r| <= |s| - from
    decreases |s| - from
  {
    if from == |s| then []
    else if EpisodeTokenAt(s, from) then RemoveEpisodeTokens(s, DigitRunEnd(s, from + 8))
    else [s[from]] + RemoveEpisodeTokens(s, from + 1)
  }

  /** Text holding a label at or after `from` always loses characters. */
  lemma {:induction false} RemoveEpisodeTokensShrinks(s: string, from: nat, j: nat)
    requires from <= j < |s| && EpisodeTokenAt(s, j)
    ensures |RemoveEpisodeTokens(s, from)| < |s| - from
    decreases |s| - from
  {
    if EpisodeTokenAt(s, from) {
      assert |RemoveEpisodeTokens(s, from)| <= |s| - DigitRunEnd(s, from + 8);
    } else {
      RemoveEpisodeTokensShrinks(s, from + 1, j);
    }
  }

  /** Text without any `Episode <digits>` is left as it is. */
  lemma {:induction false} RemoveEpisodeTokensNone(s: string, from: nat)
    requires from <= |s|
    requires forall j :: from <= j < |s| ==> !EpisodeTokenAt(s, j)
    ensures RemoveEpisodeTokens(s, from) == s[from..]
    decreases |s| - from
  {
    if from < |s| {
      RemoveEpisodeTokensNone(s, from + 1);
    }
  }

  /** A character where no label starts is kept. */
  lemma {:induction false} RemoveEpisodeTokensKeep(s: string, from: nat)
    requires from < |s| && !EpisodeTokenAt(s, from)
    ensures RemoveEpisodeTokens(s, from) == [s[from]] + RemoveEpisodeTokens(s, from + 1)
  {
  }

  /** Text before `n` that holds no label is kept as it is. */
  lemma {:induction false} RemoveEpisodeTokensUpTo(s: string, from: nat, n: nat)
    requires from <= n <= |s|
    requires forall j :: from <= j < n ==> !EpisodeTokenAt(s, j)
    ensures RemoveEpisodeTokens(s, from) == s[from..n] + RemoveEpisodeTokens(s, n)
    decreases n - from
  {
    if from < n {
      RemoveEpisodeTokensUpTo(s, from + 1, n);
      RemoveEpisodeTokensKeep(s, from);
      SliceCons(s, from, n, RemoveEpisodeTokens(s, n));
    } else {
      assert s[from..n] == [];
    }
  }

  /** Texts that read alike from `i` and `j` lose the same labels from there on. */
  lemma {:induction false} RemoveEpisodeTokensSame(s: string, i: nat, t: string, j: nat)
    requires i <= |s| && j <= |t| && SameFrom(s, i, t, j)
    ensures RemoveEpisodeTokens(s, i) == RemoveEpisodeTokens(t, j)
    decreases |s| - i
  {
    if i < |s| {
      EpisodeTokenAtSame(s, i, t, j);
      if EpisodeTokenAt(s, i) {
        var e := DigitRunEnd(s, i + 8);
        assert DigitRunEnd(t, j + 8) == e - i + j;
        SameFromLater(s, i, t, j, e);
        RemoveEpisodeTokensSame(s, e, t, e - i + j);
      } else {
        SameFromLater(s, i, t, j, i + 1);
        RemoveEpisodeTokensSame(s, i + 1, t, j + 1);
      }
    }
  }

  /** Texts that read alike from `i` and `j` have a label at both places or at neither, with digit runs alike. */
  lemma {:induction false} EpisodeTokenAtSame(s: string, i: nat, t: string, j: nat)
    requires SameFrom(s, i, t, j) && i < |s|
    ensures EpisodeTokenAt(s, i) == EpisodeTokenAt(t, j)
    ensures s[i] == t[j]
    ensures EpisodeTokenAt(s, i) ==> DigitRunEnd(t, j + 8) == DigitRunEnd(s, i + 8) - i + j
  {
    assert s[i] == t[j];
    if i + 8 < |s| {
      assert s[i + 1] == t[j + 1] && s[i + 2] == t[j + 2] && s[i + 3] == t[j + 3] && s[i + 4] == t[j + 4];
      assert s[i + 5] == t[j + 5] && s[i + 6] == t[j + 6] && s[i + 7] == t[j + 7] && s[i + 8] == t[j + 8];
      SameFromLater(s, i, t, j, i + 8);
      DigitRunEndSame(s, i + 8, t, j + 8);
    }
  }

  /** `Episode <digits>` followed by a non-digit is one label, digits and all. */
  lemma {:induction false} EpisodeLabelAt(a: string, d: string, b: string)
    requires |d| > 0 && AllDigits(d)
    requires b == [] || !IsDigit(b[0])
    ensures EpisodeTokenAt(a + "Episode " + d + b, |a|)
    ensures DigitRunEnd(a + "Episode " + d + b, |a| + 8) == |a| + 8 + |d|
  {
    var s := a + "Episode " + d + b;
    assert s[|a| + 8] == d[0];
    assert s[|a| + 8..|a| + 8 + |d|] == d;
    if b != [] {
      assert s[|a| + 8 + |d|] == b[0];
    }
    DigitRunAcross(s, |a| + 8, d);
  }

  /** Past a prefix `c`, cleanup of `c + b` is cleanup of `b`. */
  lemma {:induction false} RemoveEpisodeTokensAfter(c: string, b: string)
    ensures RemoveEpisodeTokens(c + b, |c|) == RemoveEpisodeTokens(b, 0)
  {
    SameFromAppend(c, b);
    RemoveEpisodeTokensSame(c + b, |c|, b, 0);
  }

  /** Text before the first label at `n` is kept; cleanup goes on after its digit run `e`. */
  lemma {:induction false} RemoveEpisodeTokensFirstLabel(s: string, n: nat, e: nat)
    requires n < |s| && EpisodeTokenAt(s, n) && DigitRunEnd(s, n + 8) == e
    requires forall j :: 0 <= j < n ==> !EpisodeTokenAt(s, j)
    ensures RemoveEpisodeTokens(s, 0) == s[..n] + RemoveEpisodeTokens(s, e)
  {
    RemoveEpisodeTokensUpTo(s, 0, n);
    assert s[0..n] == s[..n];
  }

  /**
   * A label `Episode <digits>` after label-free text is cut out whole: its
   * digit run is taken greedily up to the first non-digit, and the text
   * after it is cleaned on its own.
   */
  lemma {:induction false} RemoveEpisodeTokensCut(a: string, d: string, b: string)
    requires |d| > 0 && AllDigits(d)
    requires b == [] || !IsDigit(b[0])
    requires forall j :: 0 <= j < |a| ==> !EpisodeTokenAt(a + "Episode " + d + b, j)
    ensures RemoveEpisodeTokens(a + "Episode " + d + b, 0) == a + RemoveEpisodeTokens(b, 0)
  {
    var c := a + "Episode " + d;
    var s := c + b;
    assert EpisodeTokenAt(s, |a|) && DigitRunEnd(s, |a| + 8) == |c| by {
      EpisodeLabelAt(a, d, b);
    }
    assert RemoveEpisodeTokens(s, 0) == s[..|a|] + RemoveEpisodeTokens(s, |c|) by {
      RemoveEpisodeTokensFirstLabel(s, |a|, |c|);
    }
    assert RemoveEpisodeTokens(s, |c|) == RemoveEpisodeTokens(b, 0) by {
      RemoveEpisodeTokensAfter(c, b);
    }
    assert s[..|a|] == a;
  }

  /**
   * Index of the first `$` or line terminator at or after `j`, or the end of
   * `s`: the lazy `.*?` of the span regex can only stop at a `$` reached
   * before the line ends.
   */
  function DollarScan(s: string, j: nat): (e: nat)
    requires j <= |s|
    ensures j <= e <= |s|
    decreases |s| - j
  {
    if j < |s| && s[j] != '$' && !IsLineTerminator(s[j]) then DollarScan(s, j + 1) else j
  }

  /** The scan passes over neither a `$` nor a line terminator, and stops at one of them or at the end. */
  lemma {:induction false} DollarScanStops(s: string, j: nat)
    requires j <= |s|
    ensures var e := DollarScan(s, j);
            (forall k :: j <= k < e ==> s[k] != '$' && !IsLineTerminator(s[k]))
            && (e == |s| || s[e] == '$' || IsLineTerminator(s[e]))
    decreases |s| - j
  {
    if j < |s| && s[j] != '$' && !IsLineTerminator(s[j]) {
      DollarScanStops(s, j + 1);
    }
  }

  /** A match of `[$].*?[$]` starts at `from`: a `$` whose scan reaches another `$`. */
  predicate SpanAt(s: string, from: nat) {
    from < |s| && s[from] == '$' && DollarScan(s, from + 1) < |s| && s[DollarScan(s, from + 1)] == '$'
  }

  /**
   * `replace(Regex("[$].*?[$]"), "")` from index `from`: each span, from its
   * `$` to the nearest `$` after it on the same line, is cut out.
   */
  function RemoveDollarSpans(s: string, from: nat): (r: string)
    requires from <= |s|
    ensures |r| <= |s| - from
    decreases |s| - from
  {
    if from == |s| then []
    else if SpanAt(s, from) then RemoveDollarSpans(s, DollarScan(s, from + 1) + 1)
    else [s[from]] + RemoveDollarSpans(s, from + 1)
  }

  /** Text without `$` is left as it is. */
  lemma {:induction false} RemoveDollarSpansNone(s: string, from: nat)
    requires from <= |s|
    requires forall k :: from <= k < |s| ==> s[k] != '$'
    ensures RemoveDollarSpans(s, from) == s[from..]
    decreases |s| - from
  {
    if from < |s| {
      RemoveDollarSpansNone(s, from + 1);
    }
  }

  /** Text before `n` that holds no `$` is kept as it is. */
  lemma {:induction false} RemoveDollarSpansUpTo(s: string, from: nat, n: nat)
    requires from <= n <= |s|
    requires forall k :: from <= k < n ==> s[k] != '$'
    ensures RemoveDollarSpans(s, from) == s[from..n] + RemoveDollarSpans(s, n)
    decreases n - from
  {
    if from < n {
      RemoveDollarSpansUpTo(s, from + 1, n);
      RemoveDollarSpansKeep(s, from);
      SliceCons(s, from, n, RemoveDollarSpans(s, n));
    } else {
      assert s[from..n] == [];
    }
  }

  /** The scan from `j` stops at the `$` at `n` when nothing before it ends the line or is a `$`. */
  lemma {:induction false} DollarScanAt(s: string, j: nat, n: nat)
    requires j <= n < |s| && s[n] == '$'
    requires forall k :: j <= k < n ==> s[k] != '$' && !IsLineTerminator(s[k])
    ensures DollarScan(s, j) == n
    decreases n - j
  {
    if j < n {
      DollarScanAt(s, j + 1, n);
    }
  }

  /** A character that opens no span is kept. */
  lemma {:induction false} RemoveDollarSpansKeep(s: string, from: nat)
    requires from < |s| && !SpanAt(s, from)
    ensures RemoveDollarSpans(s, from) == [s[from]] + RemoveDollarSpans(s, from + 1)
  {
  }

  /** Texts that read alike from `i` and `j` scan to the same distance. */
  lemma {:induction false} DollarScanSame(s: string, i: nat, t: string, j: nat)
    requires SameFrom(s, i, t, j)
    ensures DollarScan(t, j) == DollarScan(s, i) - i + j
    decreases |s| - i
  {
    if i < |s| {
      assert s[i] == t[j];
      SameFromLater(s, i, t, j, i + 1);
      DollarScanSame(s, i + 1, t, j + 1);
    }
  }

  /** Texts that read alike from `i` and `j` drop the same spans from there on. */
  lemma {:induction false} RemoveDollarSpansSame(s: string, i: nat, t: string, j: nat)
    requires i <= |s| && j <= |t| && SameFrom(s, i, t, j)
    ensures RemoveDollarSpans(s, i) == RemoveDollarSpans(t, j)
    decreases |s| - i
  {
    if i < |s| {
      SpanAtSame(s, i, t, j);
      var e := DollarScan(s, i + 1);
      if SpanAt(s, i) {
        var e' := e + 1 - i + j;
        assert DollarScan(t, j + 1) + 1 == e';
        assert RemoveDollarSpans(s, i) == RemoveDollarSpans(s, e + 1);
        assert RemoveDollarSpans(t, j) == RemoveDollarSpans(t, e');
        SameFromLater(s, i, t, j, e + 1);
        RemoveDollarSpansSame(s, e + 1, t, e');
      } else {
        RemoveDollarSpansKeep(s, i);
        RemoveDollarSpansKeep(t, j);
        SameFromLater(s, i, t, j, i + 1);
        RemoveDollarSpansSame(s, i + 1, t, j + 1);
      }
    }
  }

  /** Texts that read alike from `i` and `j` open a span at both places or at neither, closed alike. */
  lemma {:induction false} SpanAtSame(s: string, i: nat, t: string, j: nat)
    requires SameFrom(s, i, t, j) && i < |s|
    ensures SpanAt(s, i) == SpanAt(t, j)
    ensures s[i] == t[j]
    ensures DollarScan(t, j + 1) == DollarScan(s, i + 1) - i + j
  {
    assert s[i] == t[j];
    SameFromLater(s, i, t, j, i + 1);
    DollarScanSame(s, i + 1, t, j + 1);
    var e := DollarScan(s, i + 1);
    if e < |s| {
      assert s[e] == t[e - i + j];
    }
  }

  /** Past a prefix `c`, cleanup of `c + b` is cleanup of `b`. */
  lemma {:induction false} RemoveDollarSpansAfter(c: string, b: string)
    ensures RemoveDollarSpans(c + b, |c|) == RemoveDollarSpans(b, 0)
  {
    SameFromAppend(c, b);
    RemoveDollarSpansSame(c + b, |c|, b, 0);
  }

  /** Text before the first span at `n` is kept; cleanup goes on at `e`, just past its closing `$`. */
  lemma {:induction false} RemoveDollarSpansFirstSpan(s: string, n: nat, e: nat)
    requires SpanAt(s, n) && DollarScan(s, n + 1) + 1 == e
    requires forall k :: 0 <= k < n ==> s[k] != '$'
    ensures RemoveDollarSpans(s, 0) == s[..n] + RemoveDollarSpans(s, e)
  {
    RemoveDollarSpansUpTo(s, 0, n);
    assert s[0..n] == s[..n];
  }

  /** A `$` whose text up to the next `$` stays on one line opens a span closed there. */
  lemma {:induction false} DollarSpanAt(a: string, m: string, b: string)
    requires forall k :: 0 <= k < |m| ==> m[k] != '$' && !IsLineTerminator(m[k])
    ensures var s := a + "$" + m + "$" + b;
            SpanAt(s, |a|) && DollarScan(s, |a| + 1) == |a| + 1 + |m|
  {
    var s := a + "$" + m + "$" + b;
    forall k | |a| + 1 <= k < |a| + 1 + |m|
      ensures s[k] != '$' && !IsLineTerminator(s[k])
    {
      assert s[k] == m[k - |a| - 1];
    }
    assert s[|a|] == '$';
    assert s[|a| + 1 + |m|] == '$';
    DollarScanAt(s, |a| + 1, |a| + 1 + |m|);
  }

  /**
   * A span `$…$` on one line after `$`-free text is cut out whole, up to the
   * nearest closing `$`, and the text after it is cleaned on its own.
   */
  lemma {:induction false} RemoveDollarSpansCut(a: string, m: string, b: string)
    requires forall k :: 0 <= k < |a| ==> a[k] != '$'
    requires forall k :: 0 <= k < |m| ==> m[k] != '$' && !IsLineTerminator(m[k])
    ensures RemoveDollarSpans(a + "$" + m + "$" + b, 0) == a + RemoveDollarSpans(b, 0)
  {
    var c := a + "$" + m + "$";
    var s := c + b;
    DollarSpanAt(a, m, b);
    assert forall k :: 0 <= k < |a| ==> s[k] == a[k];
    RemoveDollarSpansFirstSpan(s, |a|, |c|);
    RemoveDollarSpansAfter(c, b);
    assert s[..|a|] == a;
  }

  /** No two characters of `t` are both `$`. */
  predicate AtMostOneDollar(t: string) {
    forall a, b :: 0 <= a < b < |t| ==> t[a] != '$' || t[b] != '$'
  }

  /** At most one `$` is left of text on a single line: any two `$` there pair up into a span. */
  lemma {:induction false} RemoveDollarSpansLeavesOneDollar(s: string, from: nat)
    requires from <= |s| && NoLineTerminator(s)
    ensures AtMostOneDollar(RemoveDollarSpans(s, from))
    decreases |s| - from
  {
    if from < |s| {
      var r := RemoveDollarSpans(s, from);
      if SpanAt(s, from) {
        var e := DollarScan(s, from + 1);
        RemoveDollarSpansLeavesOneDollar(s, e + 1);
        assert r == RemoveDollarSpans(s, e + 1);
      } else if s[from] == '$' {
        DollarScanStops(s, from + 1);
        assert DollarScan(s, from + 1) == |s|;
        RemoveDollarSpansNone(s, from + 1);
        assert r == ['$'] + s[from + 1..];
        forall a, b | 0 <= a < b < |r|
          ensures r[a] != '$' || r[b] != '$'
        {
          assert r[b] == s[from + b];
        }
      } else {
        RemoveDollarSpansLeavesOneDollar(s, from + 1);
        var rest := RemoveDollarSpans(s, from + 1);
        assert r == [s[from]] + rest;
        forall a, b | 0 <= a < b < |r|
          ensures r[a] != '$' || r[b] != '$'
        {
          if a > 0 {
            assert r[a] == rest[a - 1] && r[b] == rest[b - 1];
          } else {
            assert r[a] == s[from];
          }
        }
      }
    }
  }

  /** `cleanTitle`: episode labels out, `$…$` spans out, trimmed. */
  function CleanTitle(s: string): (r: string)
    ensures r == [] || (!IsWhitespace(r[0]) && !IsWhitespace(r[|r| - 1]))
    ensures |r| <= |s|
  {
    Trim(RemoveDollarSpans(RemoveEpisodeTokens(s, 0), 0))
  }

  /** A title without episode labels and without `$` is only trimmed. */
  lemma {:induction false} CleanTitlePlain(s: string)
    requires forall j :: 0 <= j < |s| ==> !EpisodeTokenAt(s, j)
    requires forall k :: 0 <= k < |s| ==> s[k] != '$'
    ensures CleanTitle(s) == Trim(s)
  {
    RemoveEpisodeTokensNone(s, 0);
    assert s[0..] == s;
    RemoveDollarSpansNone(s, 0);
  }

  /** `cleanTitle` of a plain title followed by ` Episode <n>` is the trimmed title. */
  lemma {:induction false} CleanTitleDropsEpisodeSuffix(t: string, n: nat)
    requires forall j :: 0 <= j < |t| ==> !EpisodeTokenAt(t, j)
    requires forall k :: 0 <= k < |t| ==> t[k] != '$'
    ensures CleanTitle(t + " Episode " + NatToString(n)) == Trim(t)
  {
    var d := NatToString(n);
    var a := t + " ";
    var s := t + " Episode " + d;
    assert s == a + "Episode " + d + [];
    forall j | 0 <= j < |a|
      ensures !EpisodeTokenAt(s, j)
    {
      if j + 8 < |t| {
        assert !EpisodeTokenAt(t, j);
      } else {
        var i := j + 8 - |t|;
        assert s[j + 8] == " Episode "[i];
        assert !IsDigit(" Episode "[i]);
      }
    }
    RemoveEpisodeTokensCut(a, d, []);
    assert RemoveEpisodeTokens(s, 0) == a;
    RemoveDollarSpansNone(a, 0);
    assert a[0..] == a;
    TrimDropsTrailingSpace(t, ' ');
  }

  /** A title holding an episode label always loses characters. */
  lemma {:induction false} CleanTitleDropsLabel(s: string, j: nat)
    requires j < |s| && EpisodeTokenAt(s, j)
    ensures |CleanTitle(s)| < |s|
  {
    RemoveEpisodeTokensShrinks(s, 0, j);
  }

  // ========================================================== extractVideos

  /** `Qualities.Unknown`, or a rating chosen by the playlist generator. */
  datatype Quality = Unknown | Rated(value: int)

  /** An `ExtractorLink`. */
  datatype Link = Link(source: string, name: string, url: string, referer: string, quality: Quality)

  /** What reaches the host: a link given to the callback, or a URL handed to `loadExtractor`. */
  datatype Emission = Emitted(link: Link) | Delegated(url: string, referer: string)

  /** The URL names one of the supported stream hosts (`supportedStreams.any { url.contains(it) }`). */
  predicate IsSupported(url: string) {
    exists h :: h in SupportedStreams && Contains(url, h)
  }

  /** The links of a playlist, each given to the callback in order. */
  function EmitAll(links: seq<Link>): (r: seq<Emission>)
    ensures |r| == |links|
    ensures forall k :: 0 <= k < |r| ==> r[k] == Emitted(links[k])
  {
    seq(|links|, k requires 0 <= k < |links| => Emitted(links[k]))
  }

  /**
   * What `extractVideos` hands on: a playlist's generated links, a supported
   * host's URL to `loadExtractor`, or the URL itself as one direct link.
   */
  function VideoEmissions(url: string, referer: string, hostOf: string -> string,
                          generate: (string, string, string) -> seq<Link>): (r: seq<Emission>)
    ensures Contains(url, ".m3u8") ==> r == EmitAll(generate(hostOf(url), url, referer))
    ensures !Contains(url, ".m3u8") && IsSupported(url) ==> r == [Delegated(url, referer)]
    ensures !Contains(url, ".m3u8") && !IsSupported(url) ==>
              r == [Emitted(Link(hostOf(url), hostOf(url), url, referer, Unknown))]
  {
    var host := hostOf(url);
    if Contains(url, ".m3u8") then EmitAll(generate(host, url, referer))
    else if IsSupported(url) then [Delegated(url, referer)]
    else [Emitted(Link(host, host, url, referer, Unknown))]
  }

  /**
   * `extractVideos`. Returns whether anything was found and what was handed
   * on, in order.
   */
  method ExtractVideos(url: string, referer: string, hostOf: string -> string,
                       generate: (string, string, string) -> seq<Link>)
    returns (found: bool, emissions: seq<Emission>)
    ensures emissions == VideoEmissions(url, referer, hostOf, generate)
    ensures Contains(url, ".m3u8") ==> (found <==> |generate(hostOf(url), url, referer)| > 0)
    ensures !Contains(url, ".m3u8") ==> found
    ensures found <==> |emissions| > 0
  {
    found := false;
    emissions := [];
    var host := hostOf(url);
    if Contains(url, ".m3u8") {
      var links := generate(host, url, referer);
      var i := 0;
      while i < |links|
        invariant 0 <= i <= |links|
        invariant emissions == EmitAll(links[..i])
        invariant found <==> i > 0
      {
        emissions := emissions + [Emitted(links[i])];
        found := true;
        i := i + 1;
      }
      assert links[..i] == links;
    } else if IsSupported(url) {
      emissions := [Delegated(url, referer)];
      found := true;
    } else {
      emissions := [Emitted(Link(host, host, url, referer, Unknown))];
      found := true;
    }
  }

  /** `extractVideos` takes the playlist branch exactly for the URLs `getVideoType` calls "hls". */
  lemma {:induction false} PlaylistBranchIsHls(url: string, referer: string, hostOf: string -> string,
                            generate: (string, string, string) -> seq<Link>)
    ensures GetVideoType(url) == "hls" <==>
              VideoEmissions(url, referer, hostOf, generate) == EmitAll(generate(hostOf(url), url, referer))
              && Contains(url, ".m3u8")
  {
  }

  /** Every link `extractVideos` emits for a non-playlist URL is that URL, with the given referer. */
  lemma {:induction false} DirectLinkKeepsUrl(url: string, referer: string, hostOf: string -> string,
                           generate: (string, string, string) -> seq<Link>)
    requires !Contains(url, ".m3u8")
    ensures var r := VideoEmissions(url, referer, hostOf, generate);
            |r| == 1 &&
            (r[0].Emitted? ==> r[0].link.url == url && r[0].link.referer == referer && r[0].link.quality == Unknown) &&
            (r[0].Delegated? ==> r[0].url == url && r[0].referer == referer)
  {
  }

  // ====================================================== extractFromIframe

  /** The URL names a blacklisted embed host (`embedBlacklist.any { url.contains(it) }`). */
  predicate Blacklisted(url: string) {
    exists b :: b in EmbedBlacklist && Contains(url, b)
  }

  predicate IsQuote(c: char) {
    c == '"' || c == '\''
  }

  /** Kotlin `trim('"', '\'')`: quotes dropped at both ends. */
  function TrimQuotes(s: string): (r: string)
    ensures |r| <= |s|
    ensures r == [] || (!IsQuote(r[0]) && !IsQuote(r[|r| - 1]))
    decreases |s|
  {
    if s != [] && IsQuote(s[0]) then TrimQuotes(s[1..])
    else if s != [] && IsQuote(s[|s| - 1]) then TrimQuotes(s[..|s| - 1])
    else s
  }

  /** Between `i` and `j`, only quotes lie before `a` and from `b` on. */
  predicate QuotesAround(s: string, i: nat, a: nat, b: nat, j: nat) {
    i <= a <= b <= j <= |s|
    && (forall k :: i <= k < a ==> IsQuote(s[k]))
    && (forall k :: b <= k < j ==> IsQuote(s[k]))
  }

  /** What `trim('"', '\'')` keeps of the slice `s[i..j]` is a middle part of it, with only quotes on either side. */
  lemma {:induction false} TrimQuotesSlice(s: string, i: nat, j: nat)
    requires i <= j <= |s|
    ensures exists a: nat, b: nat :: QuotesAround(s, i, a, b, j) && TrimQuotes(s[i..j]) == s[a..b]
    decreases j - i
  {
    if i < j && IsQuote(s[i]) {
      TrimQuotesSlice(s, i + 1, j);
      var a: nat, b: nat :| QuotesAround(s, i + 1, a, b, j) && TrimQuotes(s[i + 1..j]) == s[a..b];
      QuotesAroundWiden(s, i, a, b, j, true);
      TrimQuotesDropsFirst(s, i, j);
    } else if i < j && IsQuote(s[j - 1]) {
      TrimQuotesSlice(s, i, j - 1);
      var a: nat, b: nat :| QuotesAround(s, i, a, b, j - 1) && TrimQuotes(s[i..j - 1]) == s[a..b];
      QuotesAroundWiden(s, i, a, b, j, false);
      TrimQuotesDropsLast(s, i, j);
    } else {
      TrimQuotesKeeps(s, i, j);
      assert QuotesAround(s, i, i, j, j);
    }
  }

  /** One more quote on the left (`left`) or on the right keeps the middle part surrounded by quotes. */
  lemma {:induction false} QuotesAroundWiden(s: string, i: nat, a: nat, b: nat, j: nat, left: bool)
    requires left ==> i < |s| && IsQuote(s[i]) && QuotesAround(s, i + 1, a, b, j)
    requires !left ==> 0 < j <= |s| && IsQuote(s[j - 1]) && QuotesAround(s, i, a, b, j - 1)
    ensures QuotesAround(s, i, a, b, j)
  {
  }

  lemma {:induction false} TrimQuotesDropsFirst(s: string, i: nat, j: nat)
    requires i < j <= |s| && IsQuote(s[i])
    ensures TrimQuotes(s[i..j]) == TrimQuotes(s[i + 1..j])
  {
    assert s[i..j][0] == s[i];
    assert s[i..j][1..] == s[i + 1..j];
  }

  lemma {:induction false} TrimQuotesDropsLast(s: string, i: nat, j: nat)
    requires i < j <= |s| && !IsQuote(s[i]) && IsQuote(s[j - 1])
    ensures TrimQuotes(s[i..j]) == TrimQuotes(s[i..j - 1])
  {
    var t := s[i..j];
    assert t[0] == s[i] && t[|t| - 1] == s[j - 1];
    assert t[..|t| - 1] == s[i..j - 1];
  }

  lemma {:induction false} TrimQuotesKeeps(s: string, i: nat, j: nat)
    requires i <= j <= |s|
    requires i == j || (!IsQuote(s[i]) && !IsQuote(s[j - 1]))
    ensures TrimQuotes(s[i..j]) == s[i..j]
  {
    if i < j {
      var t := s[i..j];
      assert t[0] == s[i] && t[|t| - 1] == s[j - 1];
    }
  }

  /** What `trim('"', '\'')` keeps is the middle part of `s`, with only quotes on either side of it. */
  lemma {:induction false} TrimQuotesMiddle(s: string)
    ensures exists a: nat, b: nat :: QuotesAround(s, 0, a, b, |s|) && TrimQuotes(s) == s[a..b]
  {
    assert s[0..|s|] == s;
    TrimQuotesSlice(s, 0, |s|);
  }

  /** `VideoSource` as the JSON parser returns it; only `file` is used. */
  datatype VideoSource = VideoSource(file: string, sourceLabel: Option<string>, sourceType: Option<string>)

  /** Pass 1: the fixed `src` of each `video source` that is non-empty and not blacklisted. */
  function VideoPass(srcs: seq<string>): (r: seq<string>)
    ensures |r| <= |srcs|
    ensures forall k :: 0 <= k < |r| ==> r[k] != [] && !Blacklisted(r[k]) && StartsWith(r[k], "http")
  {
    if srcs == [] then []
    else
      var before := VideoPass(srcs[..|srcs| - 1]);
      var videoUrl := FixUrl(srcs[|srcs| - 1]);
      if videoUrl != [] && !Blacklisted(videoUrl) then before + [videoUrl] else before
  }

  /** Pass 2 on one script: each regex match, unquoted and fixed, unless blacklisted. */
  function MatchPass(matches: seq<string>): (r: seq<string>)
    ensures |r| <= |matches|
    ensures forall k :: 0 <= k < |r| ==> !Blacklisted(r[k])
  {
    if matches == [] then []
    else
      var before := MatchPass(matches[..|matches| - 1]);
      var m3u8Url := FixUrl(TrimQuotes(matches[|matches| - 1]));
      if !Blacklisted(m3u8Url) then before + [m3u8Url] else before
  }

  /** Pass 2: the match pass of every script, in document order. */
  function ScriptPass(scripts: seq<string>, m3u8Matches: string -> seq<string>): (r: seq<string>)
    ensures forall k :: 0 <= k < |r| ==> !Blacklisted(r[k])
  {
    if scripts == [] then []
    else
      var before := ScriptPass(scripts[..|scripts| - 1], m3u8Matches);
      var here := MatchPass(m3u8Matches(scripts[|scripts| - 1]));
      assert forall k :: 0 <= k < |before + here| ==> (before + here)[k] in before || (before + here)[k] in here;
      before + here
  }

  /** Pass 1 over one more `src` appends its fixed URL exactly when that is non-empty and not blacklisted. */
  lemma {:induction false} VideoPassStep(srcs: seq<string>, i: nat)
    requires i < |srcs|
    ensures var videoUrl := FixUrl(srcs[i]);
            VideoPass(srcs[..i + 1]) ==
            VideoPass(srcs[..i]) + (if videoUrl != [] && !Blacklisted(videoUrl) then [videoUrl] else [])
  {
    var front := srcs[..i + 1];
    assert front[..|front| - 1] == srcs[..i];
    assert front[|front| - 1] == srcs[i];
  }

  /** Every `src` whose fixed URL is non-empty and not blacklisted is handed on by pass 1. */
  lemma {:induction false} VideoPassKeeps(srcs: seq<string>, k: nat)
    requires k < |srcs| && FixUrl(srcs[k]) != [] && !Blacklisted(FixUrl(srcs[k]))
    ensures FixUrl(srcs[k]) in VideoPass(srcs)
    decreases |srcs|
  {
    var last := |srcs| - 1;
    if k < last {
      assert srcs[..last][k] == srcs[k];
      VideoPassKeeps(srcs[..last], k);
    }
  }

  /** Pass 2 over one more match appends its unquoted, fixed URL exactly when that is not blacklisted. */
  lemma {:induction false} MatchPassStep(matches: seq<string>, i: nat)
    requires i < |matches|
    ensures var m3u8Url := FixUrl(TrimQuotes(matches[i]));
            MatchPass(matches[..i + 1]) == MatchPass(matches[..i]) + (if !Blacklisted(m3u8Url) then [m3u8Url] else [])
  {
    var front := matches[..i + 1];
    assert front[..|front| - 1] == matches[..i];
    assert front[|front| - 1] == matches[i];
  }

  /** Every match whose unquoted, fixed URL is not blacklisted is handed on by pass 2 on its script. */
  lemma {:induction false} MatchPassKeeps(matches: seq<string>, k: nat)
    requires k < |matches| && !Blacklisted(FixUrl(TrimQuotes(matches[k])))
    ensures FixUrl(TrimQuotes(matches[k])) in MatchPass(matches)
    decreases |matches|
  {
    var last := |matches| - 1;
    var before := MatchPass(matches[..last]);
    var m3u8Url := FixUrl(TrimQuotes(matches[last]));
    assert MatchPass(matches) == if !Blacklisted(m3u8Url) then before + [m3u8Url] else before;
    if k < last {
      assert matches[..last][k] == matches[k];
      MatchPassKeeps(matches[..last], k);
    }
  }

  /** Pass 2 over one more script appends that script's match pass. */
  lemma {:induction false} ScriptPassStep(scripts: seq<string>, i: nat, m3u8Matches: string -> seq<string>)
    requires i < |scripts|
    ensures ScriptPass(scripts[..i + 1], m3u8Matches) == ScriptPass(scripts[..i], m3u8Matches) + MatchPass(m3u8Matches(scripts[i]))
  {
    var front := scripts[..i + 1];
    assert front[..|front| - 1] == scripts[..i];
    assert front[|front| - 1] == scripts[i];
  }

  /** Every match of every script whose unquoted, fixed URL is not blacklisted is handed on by pass 2. */
  lemma {:induction false} ScriptPassKeeps(scripts: seq<string>, m3u8Matches: string -> seq<string>, k: nat, j: nat)
    requires k < |scripts| && j < |m3u8Matches(scripts[k])|
    requires !Blacklisted(FixUrl(TrimQuotes(m3u8Matches(scripts[k])[j])))
    ensures FixUrl(TrimQuotes(m3u8Matches(scripts[k])[j])) in ScriptPass(scripts, m3u8Matches)
    decreases |scripts|
  {
    var last := |scripts| - 1;
    var before := ScriptPass(scripts[..last], m3u8Matches);
    var here := MatchPass(m3u8Matches(scripts[last]));
    var m3u8Url := FixUrl(TrimQuotes(m3u8Matches(scripts[k])[j]));
    assert ScriptPass(scripts, m3u8Matches) == before + here;
    if k < last {
      assert scripts[..last][k] == scripts[k];
      ScriptPassKeeps(scripts[..last], m3u8Matches, k, j);
      assert m3u8Url in before;
    } else {
      MatchPassKeeps(m3u8Matches(scripts[k]), j);
      assert m3u8Url in here;
    }
  }

  /** The JSON text pass 3 gives to the parser. */
  function SourcesJson(scriptData: string): (r: string)
    ensures EndsWith(r, "]")
    ensures !Contains(scriptData, "sources = ") && !Contains(scriptData, "];") ==> r == scriptData + "]"
  {
    SubstringBefore(SubstringAfter(scriptData, "sources = "), "];") + "]"
  }

  /** The fixed `file` of each parsed source, with no blacklist check. */
  function FilePass(sources: seq<VideoSource>): (r: seq<string>)
    ensures |r| == |sources|
    ensures forall k :: 0 <= k < |r| ==> r[k] == FixUrl(sources[k].file)
  {
    if sources == [] then []
    else FilePass(sources[..|sources| - 1]) + [FixUrl(sources[|sources| - 1].file)]
  }

  /** Pass 3 over one more parsed source appends its fixed `file`. */
  lemma {:induction false} FilePassStep(sources: seq<VideoSource>, i: nat)
    requires i < |sources|
    ensures FilePass(sources[..i + 1]) == FilePass(sources[..i]) + [FixUrl(sources[i].file)]
  {
    var front := sources[..i + 1];
    assert front[..|front| - 1] == sources[..i];
    assert front[|front| - 1] == sources[i];
  }

  /** Pass 3 on one script: nothing unless it mentions `sources` and the JSON parses. */
  function JsonFiles(scriptData: string, parseSources: string -> Option<seq<VideoSource>>): (r: seq<string>)
    ensures !Contains(scriptData, "sources") || parseSources(SourcesJson(scriptData)).None? ==> r == []
    ensures Contains(scriptData, "sources") && parseSources(SourcesJson(scriptData)).Some? ==>
              var sources := parseSources(SourcesJson(scriptData)).value;
              |r| == |sources| && forall k :: 0 <= k < |r| ==> r[k] == FixUrl(sources[k].file)
    ensures forall k :: 0 <= k < |r| ==> r[k] == [] || StartsWith(r[k], "http")
  {
    if !Contains(scriptData, "sources") then []
    else match parseSources(SourcesJson(scriptData))
      case None => []
      case Some(sources) => FilePass(sources)
  }

  /** Pass 3: the JSON files of every script, in document order. */
  function JsonPass(scripts: seq<string>, parseSources: string -> Option<seq<VideoSource>>): (r: seq<string>)
    ensures scripts == [] ==> r == []
  {
    if scripts == [] then []
    else JsonPass(scripts[..|scripts| - 1], parseSources) + JsonFiles(scripts[|scripts| - 1], parseSources)
  }

  /** Pass 3 over one more script appends that script's JSON files. */
  lemma {:induction false} JsonPassStep(scripts: seq<string>, j: nat, parseSources: string -> Option<seq<VideoSource>>)
    requires j < |scripts|
    ensures JsonPass(scripts[..j + 1], parseSources) == JsonPass(scripts[..j], parseSources) + JsonFiles(scripts[j], parseSources)
  {
    var front := scripts[..j + 1];
    assert front[..|front| - 1] == scripts[..j];
    assert front[|front| - 1] == scripts[j];
  }

  /** A candidate URL is empty or absolute. */
  predicate EmptyOrAbsolute(u: string) {
    u == [] || StartsWith(u, "http")
  }

  /** Every URL of the m3u8 pass on one script is empty or absolute. */
  lemma {:induction false} MatchPassAbsolute(matches: seq<string>)
    ensures forall k :: 0 <= k < |MatchPass(matches)| ==> EmptyOrAbsolute(MatchPass(matches)[k])
    decreases |matches|
  {
    if matches != [] {
      MatchPassAbsolute(matches[..|matches| - 1]);
    }
  }

  /** Every URL of the m3u8 pass is empty or absolute. */
  lemma {:induction false} ScriptPassAbsolute(scripts: seq<string>, m3u8Matches: string -> seq<string>)
    ensures forall k :: 0 <= k < |ScriptPass(scripts, m3u8Matches)| ==>
              EmptyOrAbsolute(ScriptPass(scripts, m3u8Matches)[k])
    decreases |scripts|
  {
    if scripts != [] {
      var before := ScriptPass(scripts[..|scripts| - 1], m3u8Matches);
      var here := MatchPass(m3u8Matches(scripts[|scripts| - 1]));
      ScriptPassAbsolute(scripts[..|scripts| - 1], m3u8Matches);
      MatchPassAbsolute(m3u8Matches(scripts[|scripts| - 1]));
      forall k | 0 <= k < |before + here|
        ensures EmptyOrAbsolute((before + here)[k])
      {
        if k >= |before| {
          assert (before + here)[k] == here[k - |before|];
        }
      }
    }
  }

  /** Every URL of the JSON pass is empty or absolute. */
  lemma {:induction false} JsonPassAbsolute(scripts: seq<string>, parseSources: string -> Option<seq<VideoSource>>)
    ensures forall k :: 0 <= k < |JsonPass(scripts, parseSources)| ==>
              EmptyOrAbsolute(JsonPass(scripts, parseSources)[k])
    decreases |scripts|
  {
    if scripts != [] {
      var before := JsonPass(scripts[..|scripts| - 1], parseSources);
      var here := JsonFiles(scripts[|scripts| - 1], parseSources);
      JsonPassAbsolute(scripts[..|scripts| - 1], parseSources);
      forall k | 0 <= k < |before + here|
        ensures EmptyOrAbsolute((before + here)[k])
      {
        if k >= |before| {
          assert (before + here)[k] == here[k - |before|];
        }
      }
    }
  }

  /** Every URL `extractFromIframe` hands to `extractVideos`, in the order of the three passes. */
  function IframeCandidates(srcs: seq<string>, scripts: seq<string>, m3u8Matches: string -> seq<string>,
                            parseSources: string -> Option<seq<VideoSource>>): (r: seq<string>)
    ensures forall k :: 0 <= k < |r| ==> EmptyOrAbsolute(r[k])
    ensures |VideoPass(srcs)| <= |r| && forall k :: 0 <= k < |VideoPass(srcs)| ==> r[k] != []
    ensures r[..|VideoPass(srcs)|] == VideoPass(srcs)
    ensures |JsonPass(scripts, parseSources)| <= |r| && r[|r| - |JsonPass(scripts, parseSources)|..] == JsonPass(scripts, parseSources)
  {
    ScriptPassAbsolute(scripts, m3u8Matches);
    JsonPassAbsolute(scripts, parseSources);
    var videos := VideoPass(srcs);
    var m3u8s := ScriptPass(scripts, m3u8Matches);
    var files := JsonPass(scripts, parseSources);
    assert (videos + m3u8s + files)[..|videos|] == videos;
    assert (videos + m3u8s + files)[|videos| + |m3u8s|..] == files;
    videos + m3u8s + files
  }

  /** `f` applied to each element in turn, the results concatenated. */
  function FlatMap<A, B>(xs: seq<A>, f: A -> seq<B>): (r: seq<B>)
    ensures xs == [] ==> r == []
  {
    if xs == [] then [] else FlatMap(xs[..|xs| - 1], f) + f(xs[|xs| - 1])
  }

  lemma {:induction false} FlatMapConcat<A, B>(a: seq<A>, b: seq<A>, f: A -> seq<B>)
    ensures FlatMap(a + b, f) == FlatMap(a, f) + FlatMap(b, f)
    decreases |b|
  {
    if b == [] {
      assert a + b == a;
    } else {
      var b' := b[..|b| - 1];
      assert (a + b)[..|a + b| - 1] == a + b';
      FlatMapConcat(a, b', f);
    }
  }

  /** `extractVideos` on one URL, as a function of the URL. */
  function Extractor(referer: string, hostOf: string -> string,
                     generate: (string, string, string) -> seq<Link>): string -> seq<Emission>
  {
    url => VideoEmissions(url, referer, hostOf, generate)
  }

  /** The emissions of `extractVideos` for each URL in turn. */
  function EmissionsOf(urls: seq<string>, referer: string, hostOf: string -> string,
                       generate: (string, string, string) -> seq<Link>): (r: seq<Emission>)
    ensures urls == [] ==> r == []
  {
    FlatMap(urls, Extractor(referer, hostOf, generate))
  }

  /** The emissions of a sequence of runs are the emissions of each run, concatenated. */
  lemma {:induction false} EmissionsOfConcat(a: seq<string>, b: seq<string>, referer: string, hostOf: string -> string,
                          generate: (string, string, string) -> seq<Link>)
    ensures EmissionsOf(a + b, referer, hostOf, generate) ==
            EmissionsOf(a, referer, hostOf, generate) + EmissionsOf(b, referer, hostOf, generate)
  {
    FlatMapConcat(a, b, Extractor(referer, hostOf, generate));
  }

  lemma {:induction false} EmissionsOfSnoc(urls: seq<string>, u: string, referer: string, hostOf: string -> string,
                        generate: (string, string, string) -> seq<Link>)
    ensures EmissionsOf(urls + [u], referer, hostOf, generate) ==
            EmissionsOf(urls, referer, hostOf, generate) + VideoEmissions(u, referer, hostOf, generate)
  {
    assert (urls + [u])[..|urls|] == urls;
  }

  /** Pass 1 of `extractFromIframe`. */
  method VideoSourcePass(srcs: seq<string>, referer: string, hostOf: string -> string,
                         generate: (string, string, string) -> seq<Link>)
    returns (found: bool, handed: seq<string>, emissions: seq<Emission>)
    ensures handed == VideoPass(srcs)
    ensures emissions == EmissionsOf(handed, referer, hostOf, generate)
    ensures found <==> |handed| > 0
  {
    found := false;
    handed := [];
    emissions := [];
    var i := 0;
    while i < |srcs|
      invariant 0 <= i <= |srcs|
      invariant handed == VideoPass(srcs[..i])
      invariant emissions == EmissionsOf(handed, referer, hostOf, generate)
      invariant found <==> |handed| > 0
    {
      assert srcs[..i + 1][..i] == srcs[..i];
      var videoUrl := FixUrl(srcs[i]);
      if videoUrl != [] && !Blacklisted(videoUrl) {
        var _, e := ExtractVideos(videoUrl, referer, hostOf, generate);
        EmissionsOfSnoc(handed, videoUrl, referer, hostOf, generate);
        handed := handed + [videoUrl];
        emissions := emissions + e;
        found := true;
      }
      i := i + 1;
    }
    assert srcs[..i] == srcs;
  }

  /** Pass 2 of `extractFromIframe` on the regex matches of one script. */
  method MatchesPass(matches: seq<string>, referer: string, hostOf: string -> string,
                     generate: (string, string, string) -> seq<Link>)
    returns (found: bool, handed: seq<string>, emissions: seq<Emission>)
    ensures handed == MatchPass(matches)
    ensures emissions == EmissionsOf(handed, referer, hostOf, generate)
    ensures found <==> |handed| > 0
  {
    found := false;
    handed := [];
    emissions := [];
    var i := 0;
    while i < |matches|
      invariant 0 <= i <= |matches|
      invariant handed == MatchPass(matches[..i])
      invariant emissions == EmissionsOf(handed, referer, hostOf, generate)
      invariant found <==> |handed| > 0
    {
      assert matches[..i + 1][..i] == matches[..i];
      var m3u8Url := FixUrl(TrimQuotes(matches[i]));
      if !Blacklisted(m3u8Url) {
        var _, e := ExtractVideos(m3u8Url, referer, hostOf, generate);
        EmissionsOfSnoc(handed, m3u8Url, referer, hostOf, generate);
        handed := handed + [m3u8Url];
        emissions := emissions + e;
        found := true;
      }
      i := i + 1;
    }
    assert matches[..i] == matches;
  }

  /** Pass 3 of `extractFromIframe` on the parsed sources of one script. */
  method FilesPass(sources: seq<VideoSource>, referer: string, hostOf: string -> string,
                   generate: (string, string, string) -> seq<Link>)
    returns (found: bool, handed: seq<string>, emissions: seq<Emission>)
    ensures handed == FilePass(sources)
    ensures emissions == EmissionsOf(handed, referer, hostOf, generate)
    ensures found <==> |sources| > 0
  {
    found := false;
    handed := [];
    emissions := [];
    var i := 0;
    while i < |sources|
      invariant 0 <= i <= |sources|
      invariant handed == FilePass(sources[..i])
      invariant emissions == EmissionsOf(handed, referer, hostOf, generate)
      invariant found <==> i > 0
    {
      var fileUrl := FixUrl(sources[i].file);
      FilePassStep(sources, i);
      var _, e := ExtractVideos(fileUrl, referer, hostOf, generate);
      EmissionsOfSnoc(handed, fileUrl, referer, hostOf, generate);
      handed := handed + [fileUrl];
      emissions := emissions + e;
      found := true;
      i := i + 1;
    }
    assert sources[..i] == sources;
  }

  /** Pass 2 of `extractFromIframe`: the regex matches of every script, in document order. */
  method ScriptsM3u8Pass(scripts: seq<string>, m3u8Matches: string -> seq<string>, referer: string,
                         hostOf: string -> string, generate: (string, string, string) -> seq<Link>)
    returns (found: bool, handed: seq<string>, emissions: seq<Emission>)
    ensures handed == ScriptPass(scripts, m3u8Matches)
    ensures emissions == EmissionsOf(handed, referer, hostOf, generate)
    ensures found <==> |handed| > 0
  {
    found := false;
    handed := [];
    emissions := [];
    var i := 0;
    while i < |scripts|
      invariant 0 <= i <= |scripts|
      invariant handed == ScriptPass(scripts[..i], m3u8Matches)
      invariant emissions == EmissionsOf(handed, referer, hostOf, generate)
      invariant found <==> |handed| > 0
    {
      assert scripts[..i + 1][..i] == scripts[..i];
      var f, h, e := MatchesPass(m3u8Matches(scripts[i]), referer, hostOf, generate);
      EmissionsOfConcat(handed, h, referer, hostOf, generate);
      handed := handed + h;
      emissions := emissions + e;
      found := found || f;
      i := i + 1;
    }
    assert scripts[..i] == scripts;
  }

  /** Pass 3 of `extractFromIframe`: the JSON sources of every script that mentions them. */
  method ScriptsJsonPass(scripts: seq<string>, parseSources: string -> Option<seq<VideoSource>>, referer: string,
                         hostOf: string -> string, generate: (string, string, string) -> seq<Link>)
    returns (found: bool, handed: seq<string>, emissions: seq<Emission>)
    ensures handed == JsonPass(scripts, parseSources)
    ensures emissions == EmissionsOf(handed, referer, hostOf, generate)
    ensures found <==> |handed| > 0
  {
    found := false;
    handed := [];
    emissions := [];
    var j := 0;
    while j < |scripts|
      invariant 0 <= j <= |scripts|
      invariant handed == JsonPass(scripts[..j], parseSources)
      invariant emissions == EmissionsOf(handed, referer, hostOf, generate)
      invariant found <==> |handed| > 0
    {
      JsonPassStep(scripts, j, parseSources);
      var scriptData := scripts[j];
      if Contains(scriptData, "sources") {
        var parsed := parseSources(SourcesJson(scriptData));
        if parsed.Some? {
          var f, h, e := FilesPass(parsed.value, referer, hostOf, generate);
          assert h == JsonFiles(scriptData, parseSources);
          EmissionsOfConcat(handed, h, referer, hostOf, generate);
          handed := handed + h;
          emissions := emissions + e;
          found := found || f;
        } else {
          assert JsonFiles(scriptData, parseSources) == [];
        }
      } else {
        assert JsonFiles(scriptData, parseSources) == [];
      }
      j := j + 1;
    }
    assert scripts[..j] == scripts;
  }

  /**
   * `extractFromIframe`: the three passes in order, none cut short. Returns
   * whether any candidate was handed on, the candidates, and everything the
   * host received.
   */
  method ExtractFromIframe(srcs: seq<string>, scripts: seq<string>, m3u8Matches: string -> seq<string>,
                           parseSources: string -> Option<seq<VideoSource>>,
                           referer: string, hostOf: string -> string,
                           generate: (string, string, string) -> seq<Link>)
    returns (found: bool, handed: seq<string>, emissions: seq<Emission>)
    ensures handed == IframeCandidates(srcs, scripts, m3u8Matches, parseSources)
    ensures emissions == EmissionsOf(handed, referer, hostOf, generate)
    ensures found <==> |handed| > 0
  {
    var f1, h1, e1 := VideoSourcePass(srcs, referer, hostOf, generate);
    var f2, h2, e2 := ScriptsM3u8Pass(scripts, m3u8Matches, referer, hostOf, generate);
    var f3, h3, e3 := ScriptsJsonPass(scripts, parseSources, referer, hostOf, generate);
    EmissionsOfConcat(h1, h2, referer, hostOf, generate);
    EmissionsOfConcat(h1 + h2, h3, referer, hostOf, generate);
    found := f1 || f2 || f3;
    handed := h1 + h2 + h3;
    emissions := e1 + e2 + e3;
  }

  /** The video-source and m3u8 passes never hand on a blacklisted embed. */
  lemma {:induction false} FirstPassesSkipBlacklist(srcs: seq<string>, scripts: seq<string>, m3u8Matches: string -> seq<string>,
                                 parseSources: string -> Option<seq<VideoSource>>)
    ensures var c := IframeCandidates(srcs, scripts, m3u8Matches, parseSources);
            var n := |VideoPass(srcs)| + |ScriptPass(scripts, m3u8Matches)|;
            n <= |c| && forall k :: 0 <= k < n ==> !Blacklisted(c[k])
  {
    var a := VideoPass(srcs);
    var b := ScriptPass(scripts, m3u8Matches);
    var c := IframeCandidates(srcs, scripts, m3u8Matches, parseSources);
    forall k | 0 <= k < |a| + |b|
      ensures !Blacklisted(c[k])
    {
      if k < |a| {
        assert c[k] == a[k];
      } else {
        assert c[k] == b[k - |a|];
      }
    }
  }

  /** The JSON text cut out of a script that assigns a source list. */
  lemma {:induction false} SourcesJsonOfAssignment(json: string, tail: string)
    requires forall j :: 0 <= j < |json| ==> json[j] != ']'
    ensures SourcesJson("sources = " + json + "];" + tail) == json + "]"
  {
    var script := "sources = " + json + "];" + tail;
    assert script[..10] == "sources = ";
    assert SubstringAfter(script, "sources = ") == json + "];" + tail;
    IndexOfFirstHead(json, "];", tail);
  }

  /**
   * The JSON pass has no blacklist: every absolute `file` parsed from a script
   * that mentions `sources` is among the candidates, whatever its host.
   */
  lemma {:induction false} JsonPassIgnoresBlacklist(scripts: seq<string>, parseSources: string -> Option<seq<VideoSource>>,
                                                    k: nat, sources: seq<VideoSource>, i: nat)
    requires k < |scripts| && Contains(scripts[k], "sources")
    requires parseSources(SourcesJson(scripts[k])) == Some(sources)
    requires i < |sources| && StartsWith(sources[i].file, "http")
    ensures sources[i].file in JsonPass(scripts, parseSources)
  {
    var last := |scripts| - 1;
    var before := scripts[..last];
    assert JsonPass(scripts, parseSources) == JsonPass(before, parseSources) + JsonFiles(scripts[last], parseSources);
    if k == last {
      FixUrlForms(sources[i].file);
      assert FilePass(sources)[i] == sources[i].file;
    } else {
      assert before[k] == scripts[k];
      JsonPassIgnoresBlacklist(before, parseSources, k, sources, i);
    }
  }

  /**
   * A blacklisted embed (a dood.to file, say) listed in a script's
   * `sources = [...]` assignment still reaches `extractVideos`.
   */
  lemma {:induction false} BlacklistedJsonSourceHandedOn(json: string, file: string, parseSources: string -> Option<seq<VideoSource>>)
    requires forall j :: 0 <= j < |json| ==> json[j] != ']'
    requires StartsWith(file, "http") && Blacklisted(file)
    requires parseSources(json + "]") == Some([VideoSource(file, None, None)])
    ensures var script := "sources = " + json + "];";
            file in IframeCandidates([], [script], s => [], parseSources)
  {
    var script := "sources = " + json + "];";
    SourcesAssignment(json);
    JsonPassIgnoresBlacklist([script], parseSources, 0, [VideoSource(file, None, None)], 0);
    CandidatesWithoutMatches([script], s => [], parseSources);
  }

  /** A script that assigns `sources = <json>];` mentions `sources`, and its JSON is `<json>]`. */
  lemma {:induction false} SourcesAssignment(json: string)
    requires forall j :: 0 <= j < |json| ==> json[j] != ']'
    ensures Contains("sources = " + json + "];", "sources")
    ensures SourcesJson("sources = " + json + "];") == json + "]"
  {
    var script := "sources = " + json + "];";
    assert OccursAt(script, "sources", 0) by {
      assert script[..7] == "sources";
    }
    assert script == "sources = " + json + "];" + "";
    SourcesJsonOfAssignment(json, "");
  }

  /** Scripts with no regex match add nothing in pass 2. */
  lemma {:induction false} ScriptPassWithoutMatches(scripts: seq<string>, m3u8Matches: string -> seq<string>)
    requires forall s :: m3u8Matches(s) == []
    ensures ScriptPass(scripts, m3u8Matches) == []
  {
    if scripts != [] {
      ScriptPassWithoutMatches(scripts[..|scripts| - 1], m3u8Matches);
      assert MatchPass(m3u8Matches(scripts[|scripts| - 1])) == [];
    }
  }

  /** Without `video source` elements and without regex matches, the candidates are those of the JSON pass. */
  lemma {:induction false} CandidatesWithoutMatches(scripts: seq<string>, m3u8Matches: string -> seq<string>,
                                                    parseSources: string -> Option<seq<VideoSource>>)
    requires forall s :: m3u8Matches(s) == []
    ensures IframeCandidates([], scripts, m3u8Matches, parseSources) == JsonPass(scripts, parseSources)
  {
    ScriptPassWithoutMatches(scripts, m3u8Matches);
    assert VideoPass([]) == [];
  }

}
