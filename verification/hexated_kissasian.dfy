/**
 * The string rules of the second Kissasian provider
 * (hexated/KissAsianProvider.kt): the episode number read from an episode
 * title, the description cleanup that cuts the site's "Dear user watch"
 * notice, and the guard of `loadLinks` on the player iframe.
 */
module HexatedKissasian {
  import opened Wrappers
  import opened Text
  import opened Numbers

  // ================================================== extractEpisodeNumber

  /**
   * The token read as the number: the text after the first "Episode " (or
   * all of it when there is none), up to its first space or its end.
   */
  function EpisodeToken(s: string): (r: string)
    ensures |r| <= |s|
    ensures forall k :: 0 <= k < |r| ==> r[k] != ' '
    ensures var after := SubstringAfter(s, "Episode ");
            StartsWith(after, r) && (|r| == |after| || after[|r|] == ' ')
  {
    var after := SubstringAfter(s, "Episode ");
    SubstringBeforeChar(after, ' ');
    SubstringBefore(after, " ")
  }

  /**
   * `extractEpisodeNumber`: the token as an Int, or 0 when it is not one
   * (no digits, stray characters, or out of the Int range).
   */
  function ExtractEpisodeNumber(s: string): (r: int)
    ensures IntMin <= r <= IntMax
    ensures ToIntOrNull(EpisodeToken(s)).Some? ==> r == ToIntOrNull(EpisodeToken(s)).value
    ensures ToIntOrNull(EpisodeToken(s)).None? ==> r == 0
  {
    ToIntOrNull(EpisodeToken(s)).GetOr(0)
  }

  /** A rendered Int holds no space. */
  lemma {:induction false} IntToStringHasNoSpace(v: int)
    ensures forall k :: 0 <= k < |IntToString(v)| ==> IntToString(v)[k] != ' '
  {
    var d := IntToString(v);
    if v < 0 {
      assert d == "-" + NatToString(-v);
      assert forall k :: 1 <= k < |d| ==> d[k] == NatToString(-v)[k - 1];
    }
  }

  /** A space-free word followed by nothing or a space is what `substringBefore(" ")` keeps. */
  lemma {:induction false} WordBeforeSpace(word: string, tail: string)
    requires forall k :: 0 <= k < |word| ==> word[k] != ' '
    requires tail == [] || tail[0] == ' '
    ensures SubstringBefore(word + tail, " ") == word
  {
    if tail == [] {
      assert word + tail == word;
      forall k | 0 <= k < |word|
        ensures !OccursAt(word, " ", k)
      {
        assert word[k..k + 1][0] == word[k];
      }
    } else {
      assert word + tail == word + " " + tail[1..];
      IndexOfFirstHead(word, " ", tail[1..]);
    }
  }

  /** The text after the first "Episode " label of `p + "Episode " + rest` is `rest`. */
  lemma {:induction false} AfterFirstLabel(p: string, rest: string)
    requires forall j :: 0 <= j < |p| ==> !OccursAt(p + "Episode " + rest, "Episode ", j)
    ensures SubstringAfter(p + "Episode " + rest, "Episode ") == rest
  {
    var s := p + "Episode " + rest;
    assert s[|p|..|p| + 8] == "Episode ";
    SubstringAfterFirst(s, "Episode ", |p|);
    assert s[|p| + 8..] == rest;
  }

  /**
   * After the first "Episode ", a space-free word followed by nothing or a
   * space is the token, whatever text comes before the label.
   */
  lemma {:induction false} EpisodeTokenOfLabel(p: string, word: string, tail: string)
    requires forall j :: 0 <= j < |p| ==> !OccursAt(p + "Episode " + word + tail, "Episode ", j)
    requires forall k :: 0 <= k < |word| ==> word[k] != ' '
    requires tail == [] || tail[0] == ' '
    ensures EpisodeToken(p + "Episode " + word + tail) == word
  {
    assert p + "Episode " + word + tail == p + "Episode " + (word + tail);
    AfterFirstLabel(p, word + tail);
    WordBeforeSpace(word, tail);
  }

  /**
   * A title whose first "Episode " is followed by the number n, then by
   * nothing or a space and more text, reads back as n.
   */
  lemma {:induction false} EpisodeNumberRoundTrip(p: string, n: int, tail: string)
    requires forall j :: 0 <= j < |p| ==> !OccursAt(p + "Episode " + IntToString(n) + tail, "Episode ", j)
    requires IntMin <= n <= IntMax
    requires tail == [] || tail[0] == ' '
    ensures ExtractEpisodeNumber(p + "Episode " + IntToString(n) + tail) == n
  {
    IntToStringHasNoSpace(n);
    EpisodeTokenOfLabel(p, IntToString(n), tail);
    IntToStringRoundTrip(n);
  }

  /** A number beyond the Int range reads as 0, not as a wrapped value. */
  lemma {:induction false} EpisodeNumberOverflowIsZero(p: string, digits: string, tail: string)
    requires forall j :: 0 <= j < |p| ==> !OccursAt(p + "Episode " + digits + tail, "Episode ", j)
    requires |digits| > 0 && AllDigits(digits) && DigitsValue(digits) > IntMax
    requires tail == [] || tail[0] == ' '
    ensures ExtractEpisodeNumber(p + "Episode " + digits + tail) == 0
  {
    assert forall k :: 0 <= k < |digits| ==> digits[k] != ' ';
    EpisodeTokenOfLabel(p, digits, tail);
    DigitsOverflowIsNull(digits);
  }

  /** Without "Episode " the text is read from its start: its first word is the number. */
  lemma {:induction false} EpisodeNumberWithoutLabel(s: string)
    requires !Contains(s, "Episode ")
    ensures EpisodeToken(s) == SubstringBefore(s, " ")
    ensures ExtractEpisodeNumber(s) == ToIntOrNull(SubstringBefore(s, " ")).GetOr(0)
  {
  }

  // ==================================================== cleanUpDescription

  const Notice: string := "Dear user watch"

  /**
   * `replace(Regex("Dear user watch.*"), "")` from index `from`: each
   * occurrence of the notice is cut together with the rest of its line.
   */
  function RemoveNotices(s: string, from: nat): (r: string)
    requires from <= |s|
    ensures |r| <= |s| - from
    ensures IndexOf(s, Notice, from).None? ==> r == s[from..]
    decreases |s| - from
  {
    match IndexOf(s, Notice, from)
    case None => s[from..]
    case Some(i) => s[from..i] + RemoveNotices(s, LineEnd(s, i + |Notice|))
  }

  /** `cleanUpDescription` on the paragraph text: notices cut, then trimmed. */
  function CleanUpDescription(text: string): (r: string)
    ensures r == [] || (!IsWhitespace(r[0]) && !IsWhitespace(r[|r| - 1]))
    ensures |r| <= |text|
  {
    Trim(RemoveNotices(text, 0))
  }

  /** On a single line, the first notice takes the rest of the text with it. */
  lemma {:induction false} RemoveNoticesSingleLine(text: string, i: nat)
    requires NoLineTerminator(text)
    requires IndexOf(text, Notice, 0) == Some(i)
    ensures RemoveNotices(text, 0) == text[..i]
  {
    var j := LineEnd(text, i + |Notice|);
    assert j == |text|;
    assert IndexOf(text, Notice, j).None?;
    assert RemoveNotices(text, j) == [];
    assert RemoveNotices(text, 0) == text[0..i] + RemoveNotices(text, j);
    assert text[0..i] == text[..i];
  }

  /**
   * On a single line (the paragraph text the page gives), everything from the
   * first notice on is dropped; text without a notice is only trimmed.
   */
  lemma {:induction false} CleanUpDescriptionSingleLine(text: string)
    requires NoLineTerminator(text)
    ensures IndexOf(text, Notice, 0).None? ==> CleanUpDescription(text) == Trim(text)
    ensures IndexOf(text, Notice, 0).Some? ==>
              CleanUpDescription(text) == Trim(text[..IndexOf(text, Notice, 0).value])
  {
    var found := IndexOf(text, Notice, 0);
    if found.None? {
      assert text[0..] == text;
      assert RemoveNotices(text, 0) == text;
    } else {
      RemoveNoticesSingleLine(text, found.value);
    }
  }

  // ============================================================= loadLinks

  /** What `loadLinks` reports and the URL it hands to `loadExtractor`, if any. */
  datatype LoadOutcome = LoadOutcome(loaded: bool, extractorUrl: Option<string>)

  /**
   * `loadLinks`: `iframeSrc` is the `src` of `.watch-iframe iframe` ("" when
   * there is none) and `fixUrl` the host's link resolution. An empty source
   * ends the call with false; otherwise the resolved URL goes to the
   * extractor and the answer is true whatever the extractor does.
   */
  function LoadLinks(iframeSrc: string, fixUrl: string -> string): (r: LoadOutcome)
    ensures r.loaded <==> iframeSrc != []
    ensures r.loaded <==> r.extractorUrl.Some?
    ensures r.extractorUrl.Some? ==> r.extractorUrl.value == fixUrl(iframeSrc)
  {
    if iframeSrc == [] then LoadOutcome(false, None)
    else LoadOutcome(true, Some(fixUrl(iframeSrc)))
  }
}
