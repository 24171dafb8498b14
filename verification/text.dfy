/**
 * The string primitives of the Kotlin standard library and of java.util.regex
 * that the scrapers' rules are built from: character classes, prefix and
 * infix tests (plain and case-insensitive), `indexOf`, `substringAfter`,
 * `substringBefore`, `removeSuffix`, `trim` and `isBlank`.
 *
 * Positions are `nat` indices into the string; scanning functions take the
 * string and a start index so that lemmas about them never have to relate
 * two different strings.
 */
module Text {
  import opened Wrappers

  // ---------------------------------------------------------------- chars

  /** Kotlin `Char.isWhitespace()`: Java whitespace or a Unicode space separator. */
  predicate IsWhitespace(c: char) {
    c == ' ' || c == '\t' || c == '\n' || c == '\U{B}' || c == '\U{C}' || c == '\r'
    || ('\U{1C}' <= c <= '\U{1F}')
    || c == '\U{A0}' || c == '\U{1680}' || ('\U{2000}' <= c <= '\U{200A}')
    || c == '\U{2028}' || c == '\U{2029}' || c == '\U{202F}' || c == '\U{205F}' || c == '\U{3000}'
  }

  /** The regex class `\s` of java.util.regex without UNICODE_CHARACTER_CLASS. */
  predicate IsRegexSpace(c: char) {
    c == ' ' || c == '\t' || c == '\n' || c == '\U{B}' || c == '\U{C}' || c == '\r'
  }

  /** The regex class `\d`: ASCII decimal digits. */
  predicate IsDigit(c: char) {
    '0' <= c <= '9'
  }

  /** The characters the regex `.` does not match (java.util.regex line terminators). */
  predicate IsLineTerminator(c: char) {
    c == '\n' || c == '\r' || c == '\U{85}' || c == '\U{2028}' || c == '\U{2029}'
  }

  /** ASCII lower-casing: every case-insensitive test of the model folds ASCII letters only. */
  function LowerAscii(c: char): char {
    if 'A' <= c <= 'Z' then (c as int + 32) as char else c
  }

  /** ASCII upper-casing. */
  function UpperAscii(c: char): char {
    if 'a' <= c <= 'z' then (c as int - 32) as char else c
  }

  /** Kotlin `String.lowercase()`, restricted to ASCII letters. */
  function Lower(s: string): (r: string)
    ensures |r| == |s|
  {
    if s == [] then [] else [LowerAscii(s[0])] + Lower(s[1..])
  }

  /** Kotlin `String.uppercase()`, restricted to ASCII letters. */
  function Upper(s: string): (r: string)
    ensures |r| == |s|
  {
    if s == [] then [] else [UpperAscii(s[0])] + Upper(s[1..])
  }

  predicate NoLineTerminator(s: string) {
    forall i :: 0 <= i < |s| ==> !IsLineTerminator(s[i])
  }

  // ------------------------------------------------------ prefix and infix

  predicate StartsWith(s: string, p: string) {
    |p| <= |s| && s[..|p|] == p
  }

  predicate EndsWith(s: string, p: string) {
    |p| <= |s| && s[|s| - |p|..] == p
  }

  /** `p` occurs in `s` starting at index `i`. */
  predicate OccursAt(s: string, p: string, i: nat) {
    i + |p| <= |s| && s[i..i + |p|] == p
  }

  /**
   * The first index at or after `from` where `p` occurs in `s`
   * (Kotlin `indexOf(p, from)`, with None for -1).
   */
  function IndexOf(s: string, p: string, from: nat): (r: Option<nat>)
    ensures r.Some? ==> from <= r.value && OccursAt(s, p, r.value)
    ensures r.Some? ==> forall j :: from <= j < r.value ==> !OccursAt(s, p, j)
    ensures r.None? ==> forall j :: from <= j ==> !OccursAt(s, p, j)
    decreases |s| - from
  {
    if from + |p| > |s| then None
    else if OccursAt(s, p, from) then Some(from)
    else IndexOf(s, p, from + 1)
  }

  /** Kotlin `contains(p)`. */
  predicate Contains(s: string, p: string) {
    IndexOf(s, p, 0).Some?
  }

  /**
   * Kotlin `contains(needle, ignoreCase = true)` with ASCII case folding, for a
   * needle written in lower case (every needle of the scrapers is a literal).
   */
  predicate ContainsIgnoreCase(s: string, needle: string) {
    Contains(Lower(s), needle)
  }

  /** The text at `i` equals `p` up to ASCII case (a literal under IGNORE_CASE). */
  predicate OccursAtIgnoreCase(s: string, p: string, i: nat) {
    i + |p| <= |s| && Lower(s[i..i + |p|]) == Lower(p)
  }

  lemma {:induction false} LowerAt(s: string, k: nat)
    requires k < |s|
    ensures Lower(s)[k] == LowerAscii(s[k])
  {
    if k > 0 {
      LowerAt(s[1..], k - 1);
    }
  }

  /** Lower-casing commutes with taking a slice. */
  lemma {:induction false} LowerSlice(s: string, i: nat, j: nat)
    requires i <= j <= |s|
    ensures Lower(s)[i..j] == Lower(s[i..j])
  {
    var u := Lower(s)[i..j];
    var v := Lower(s[i..j]);
    assert |u| == |v|;
    forall k | 0 <= k < |u|
      ensures u[k] == v[k]
    {
      LowerAt(s, i + k);
      LowerAt(s[i..j], k);
    }
  }

  /** An occurrence in the lower-cased text is an occurrence up to case, and back. */
  lemma {:induction false} OccursLowerIff(s: string, needle: string, i: nat)
    requires Lower(needle) == needle
    ensures OccursAt(Lower(s), needle, i) <==> OccursAtIgnoreCase(s, needle, i)
  {
    if i + |needle| <= |s| {
      LowerSlice(s, i, i + |needle|);
    }
  }

  /**
   * For a lower-case needle, `contains(needle, ignoreCase = true)` holds
   * exactly when the needle occurs somewhere up to ASCII case.
   */
  lemma {:induction false} ContainsIgnoreCaseIff(s: string, needle: string)
    requires Lower(needle) == needle
    ensures ContainsIgnoreCase(s, needle) <==> exists i: nat :: OccursAtIgnoreCase(s, needle, i)
  {
    var found := IndexOf(Lower(s), needle, 0);
    if found.Some? {
      OccursLowerIff(s, needle, found.value);
    }
    if exists i: nat :: OccursAtIgnoreCase(s, needle, i) {
      var i: nat :| OccursAtIgnoreCase(s, needle, i);
      OccursLowerIff(s, needle, i);
    }
  }

  /** Kotlin `substringAfter(d)`: the text after the first `d`, or all of `s` when there is none. */
  function SubstringAfter(s: string, d: string): (r: string)
    ensures |r| <= |s| && r == s[|s| - |r|..]
    ensures Contains(s, d) ==> |r| + |d| <= |s| && OccursAt(s, d, |s| - |r| - |d|)
    ensures Contains(s, d) ==> forall j :: 0 <= j < |s| - |r| - |d| ==> !OccursAt(s, d, j)
    ensures !Contains(s, d) ==> r == s
  {
    match IndexOf(s, d, 0)
    case Some(i) => s[i + |d|..]
    case None => s
  }

  /** Kotlin `substringBefore(d)`: the text before the first `d`, or all of `s` when there is none. */
  function SubstringBefore(s: string, d: string): (r: string)
    ensures |r| <= |s| && r == s[..|r|]
    ensures Contains(s, d) ==> OccursAt(s, d, |r|) && forall j: nat :: j < |r| ==> !OccursAt(s, d, j)
    ensures !Contains(s, d) ==> r == s
  {
    match IndexOf(s, d, 0)
    case Some(i) => s[..i]
    case None => s
  }

  /** A slice followed by more text is its first character followed by the rest. */
  lemma {:induction false} SliceCons(s: string, i: nat, n: nat, t: string)
    requires i < n <= |s|
    ensures [s[i]] + (s[i + 1..n] + t) == s[i..n] + t
  {
    assert s[i..n] == [s[i]] + s[i + 1..n];
  }

  /** `substringBefore(c)` for one character stops at the first `c`, or runs to the end. */
  lemma {:induction false} SubstringBeforeChar(s: string, c: char)
    ensures var r := SubstringBefore(s, [c]);
            (forall k :: 0 <= k < |r| ==> r[k] != c) && (|r| == |s| || s[|r|] == c)
  {
    var r := SubstringBefore(s, [c]);
    forall k | 0 <= k < |r|
      ensures r[k] != c
    {
      assert !OccursAt(s, [c], k);
      assert s[k..k + 1] == [r[k]];
    }
    if Contains(s, [c]) {
      assert s[|r|..|r| + 1] == [c];
    }
  }

  /** When the first occurrence of `d` is at `i`, `substringAfter(d)` is the text after it. */
  lemma {:induction false} SubstringAfterFirst(s: string, d: string, i: nat)
    requires OccursAt(s, d, i)
    requires forall j :: 0 <= j < i ==> !OccursAt(s, d, j)
    ensures SubstringAfter(s, d) == s[i + |d|..]
  {
    assert Contains(s, d);
    var r := SubstringAfter(s, d);
    var q := |s| - |r| - |d|;
    assert q == i;
  }

  /** A needle whose first character does not occur before it is found exactly there. */
  lemma {:induction false} IndexOfFirstHead(a: string, p: string, b: string)
    requires |p| > 0 && forall j :: 0 <= j < |a| ==> a[j] != p[0]
    ensures IndexOf(a + p + b, p, 0) == Some(|a|)
  {
    var s := a + p + b;
    assert s[|a|..|a| + |p|] == p;
    assert OccursAt(s, p, |a|);
    var r := IndexOf(s, p, 0);
    assert r.value <= |a|;
    assert s[r.value..r.value + |p|][0] == s[r.value];
    assert forall j :: 0 <= j < |a| ==> s[j] == a[j];
  }

  /** Kotlin `removeSuffix(x)`: drops one trailing `x` if present. */
  function RemoveSuffix(s: string, x: string): (r: string)
    ensures EndsWith(s, x) ==> r + x == s
    ensures !EndsWith(s, x) ==> r == s
  {
    if EndsWith(s, x) then s[..|s| - |x|] else s
  }

  // ------------------------------------------------------------ whitespace

  /** Kotlin `isBlank()`: empty or whitespace only. */
  predicate IsBlank(s: string) {
    forall i :: 0 <= i < |s| ==> IsWhitespace(s[i])
  }

  function TrimStart(s: string): (r: string)
    ensures |r| <= |s| && r == s[|s| - |r|..]
    ensures r == [] || !IsWhitespace(r[0])
    ensures forall i :: 0 <= i < |s| - |r| ==> IsWhitespace(s[i])
  {
    if s != [] && IsWhitespace(s[0]) then TrimStart(s[1..]) else s
  }

  function TrimEnd(s: string): (r: string)
    ensures |r| <= |s| && r == s[..|r|]
    ensures r == [] || !IsWhitespace(r[|r| - 1])
    ensures forall i :: |r| <= i < |s| ==> IsWhitespace(s[i])
  {
    if s != [] && IsWhitespace(s[|s| - 1]) then TrimEnd(s[..|s| - 1]) else s
  }

  /**
   * Kotlin `trim()`: drops leading and trailing whitespace; the result is the
   * middle part of `s` with only whitespace on either side of it.
   */
  function Trim(s: string): (r: string)
    ensures r == [] || (!IsWhitespace(r[0]) && !IsWhitespace(r[|r| - 1]))
    ensures exists a, b :: 0 <= a <= b <= |s| && r == s[a..b] &&
              (forall i :: 0 <= i < a ==> IsWhitespace(s[i])) &&
              (forall i :: b <= i < |s| ==> IsWhitespace(s[i]))
  {
    var t := TrimStart(s);
    var r := TrimEnd(t);
    var a := |s| - |t|;
    assert r == s[a..a + |r|];
    assert forall i :: a + |r| <= i < |s| ==> s[i] == t[i - a];
    r
  }

  lemma {:induction false} TrimStartFixed(s: string)
    requires s == [] || !IsWhitespace(s[0])
    ensures TrimStart(s) == s
  {
  }

  lemma {:induction false} TrimEndFixed(s: string)
    requires s == [] || !IsWhitespace(s[|s| - 1])
    ensures TrimEnd(s) == s
  {
  }

  /** Trimming twice is trimming once. */
  lemma {:induction false} TrimIdempotent(s: string)
    ensures Trim(Trim(s)) == Trim(s)
  {
    var t := Trim(s);
    TrimStartFixed(t);
    TrimEndFixed(t);
  }

  /** Trimming never touches a prefix whose first and last characters are not whitespace. */
  lemma {:induction false} TrimKeepsPrefix(s: string, p: string)
    ensures StartsWith(s, p) && |p| > 0 && !IsWhitespace(p[0]) && !IsWhitespace(p[|p| - 1]) ==>
              StartsWith(Trim(s), p)
  {
    if StartsWith(s, p) && |p| > 0 && !IsWhitespace(p[0]) && !IsWhitespace(p[|p| - 1]) {
      TrimStartFixed(s);
      var r := TrimEnd(s);
      assert s[|p| - 1] == p[|p| - 1];
      assert r[..|p|] == s[..|p|];
    }
  }

  lemma {:induction false} TrimStartSnoc(t: string, c: char)
    requires !IsBlank(t)
    ensures TrimStart(t + [c]) == TrimStart(t) + [c]
  {
    if IsWhitespace(t[0]) {
      assert (t + [c])[1..] == t[1..] + [c];
      assert !IsBlank(t[1..]) by {
        var k :| 0 <= k < |t| && !IsWhitespace(t[k]);
        assert t[1..][k - 1] == t[k];
      }
      TrimStartSnoc(t[1..], c);
    }
  }

  /** A trailing whitespace character makes no difference to `trim()`. */
  lemma {:induction false} TrimDropsTrailingSpace(t: string, c: char)
    requires IsWhitespace(c)
    ensures Trim(t + [c]) == Trim(t)
  {
    if IsBlank(t) {
      TrimEmptyIffBlank(t);
      TrimEmptyIffBlank(t + [c]);
    } else {
      TrimStartSnoc(t, c);
      TrimEndSnoc(TrimStart(t), c);
    }
  }

  lemma {:induction false} TrimEndSnoc(u: string, c: char)
    requires IsWhitespace(c)
    ensures TrimEnd(u + [c]) == TrimEnd(u)
  {
    assert (u + [c])[..|u|] == u;
  }

  /** A string trims to the empty string exactly when it is blank. */
  lemma {:induction false} TrimEmptyIffBlank(s: string)
    ensures Trim(s) == [] <==> IsBlank(s)
  {
    var t := TrimStart(s);
    if !IsBlank(s) {
      var k :| 0 <= k < |s| && !IsWhitespace(s[k]);
      assert t[k - (|s| - |t|)] == s[k];
    }
  }

  /** Trimming leaves alone a string that neither starts nor ends with whitespace. */
  lemma {:induction false} TrimFixed(s: string)
    requires s == [] || (!IsWhitespace(s[0]) && !IsWhitespace(s[|s| - 1]))
    ensures Trim(s) == s
  {
    TrimStartFixed(s);
    TrimEndFixed(s);
  }

  // ------------------------------------------------------------------ runs

  /** Index just past the maximal run of regex `\s` characters starting at `i` (greedy `\s*`). */
  function SpaceRunEnd(s: string, i: nat): (j: nat)
    requires i <= |s|
    ensures i <= j <= |s|
    ensures forall k :: i <= k < j ==> IsRegexSpace(s[k])
    ensures j == |s| || !IsRegexSpace(s[j])
    decreases |s| - i
  {
    if i < |s| && IsRegexSpace(s[i]) then SpaceRunEnd(s, i + 1) else i
  }

  /** Index just past the maximal run of digits starting at `i` (greedy `\d*`). */
  function DigitRunEnd(s: string, i: nat): (j: nat)
    requires i <= |s|
    ensures i <= j <= |s|
    ensures forall k :: i <= k < j ==> IsDigit(s[k])
    ensures j == |s| || !IsDigit(s[j])
    decreases |s| - i
  {
    if i < |s| && IsDigit(s[i]) then DigitRunEnd(s, i + 1) else i
  }

  /** From `i` on, `s` reads as `t` does from `j` on. */
  predicate SameFrom(s: string, i: nat, t: string, j: nat) {
    i <= |s| && j <= |t| && |s| - i == |t| - j && forall p :: i <= p < |s| ==> s[p] == t[p - i + j]
  }

  /** Two texts that read alike from `i` and `j` still read alike further on. */
  lemma {:induction false} SameFromLater(s: string, i: nat, t: string, j: nat, n: nat)
    requires SameFrom(s, i, t, j) && i <= n <= |s|
    ensures SameFrom(s, n, t, n - i + j)
  {
    forall p | n <= p < |s|
      ensures s[p] == t[p - n + (n - i + j)]
    {
      assert p - n + (n - i + j) == p - i + j;
    }
  }

  /** Texts that read alike from `i` and `j` have digit runs of the same length there. */
  lemma {:induction false} DigitRunEndSame(s: string, i: nat, t: string, j: nat)
    requires SameFrom(s, i, t, j)
    ensures DigitRunEnd(t, j) == DigitRunEnd(s, i) - i + j
    decreases |s| - i
  {
    if i < |s| {
      assert s[i] == t[j];
      SameFromLater(s, i, t, j, i + 1);
      DigitRunEndSame(s, i + 1, t, j + 1);
    }
  }

  /** A text reads from `|c|` on as `b` does from its start. */
  lemma {:induction false} SameFromAppend(c: string, b: string)
    ensures SameFrom(c + b, |c|, b, 0)
  {
    forall p | |c| <= p < |c + b|
      ensures (c + b)[p] == b[p - |c| + 0]
    {
    }
  }

  /** Index of the first line terminator at or after `i`, or the end of `s` (greedy `.*`). */
  function LineEnd(s: string, i: nat): (j: nat)
    requires i <= |s|
    ensures i <= j <= |s|
    ensures forall k :: i <= k < j ==> !IsLineTerminator(s[k])
    ensures j == |s| || IsLineTerminator(s[j])
    decreases |s| - i
  {
    if i < |s| && !IsLineTerminator(s[i]) then LineEnd(s, i + 1) else i
  }

  /** Two prefixes with different first characters exclude each other. */
  lemma {:induction false} FirstCharDecides(s: string, p: string, q: string)
    requires StartsWith(s, p) && |p| > 0 && |q| > 0 && p[0] != q[0]
    ensures !StartsWith(s, q)
  {
    assert s[0] == p[0];
  }
}
