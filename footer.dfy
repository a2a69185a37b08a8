/**
 * Footer year update (app.js, lines 77-82): the first match of the regular
 * expression `/©\s*\d{4}/` in the footer text is replaced by `© ` and the
 * current year. The year is a parameter.
 */
module Footer {
  const COPYRIGHT_SIGN: char := '\U{00A9}'  // ©

  /** The class `\d`: the ASCII digits. */
  predicate IsDigit(c: char)
  {
    '0' <= c <= '9'
  }

  /** The single characters of the class `\s` of JavaScript regular expressions (ECMAScript WhiteSpace and LineTerminator). */
  const SPACE_CHARS: set<char> := {
    '\t', '\n', '\U{000B}', '\U{000C}', '\r', ' ', '\U{00A0}', '\U{1680}',
    '\U{2028}', '\U{2029}', '\U{202F}', '\U{205F}', '\U{3000}', '\U{FEFF}'
  }

  /** The class `\s`: the characters above and the range U+2000 to U+200A. */
  predicate IsSpace(c: char)
  {
    c in SPACE_CHARS || '\U{2000}' <= c <= '\U{200A}'
  }

  /**
   * The regular expression matches `s` at position `i` with `w` whitespace
   * characters between the sign and the four digits: the pattern's meaning,
   * stated without any search strategy.
   */
  predicate IsMatch(s: string, i: nat, w: nat)
  {
    && i + w + 5 <= |s|
    && s[i] == COPYRIGHT_SIGN
    && (forall k :: i + 1 <= k < i + 1 + w ==> IsSpace(s[k]))
    && (forall k :: i + 1 + w <= k < i + 5 + w ==> IsDigit(s[k]))
  }

  /** The number of whitespace characters starting at `i`: what the greedy `\s*` consumes. */
  function SpaceRun(s: string, i: nat): (n: nat)
    requires i <= |s|
    ensures i + n <= |s|
    ensures forall k :: i <= k < i + n ==> IsSpace(s[k])
    ensures i + n < |s| ==> !IsSpace(s[i + n])
    decreases |s| - i
  {
    if i < |s| && IsSpace(s[i]) then 1 + SpaceRun(s, i + 1) else 0
  }

  /**
   * The length of the match at `i`, or 0 when there is none (a match is at
   * least five characters long). The greedy `\s*` never has to give characters
   * back, because no whitespace character is a digit.
   */
  function MatchAt(s: string, i: nat): (len: nat)
    requires i <= |s|
    ensures len != 0 ==> len >= 5 && IsMatch(s, i, len - 5)
  {
    if i < |s| && s[i] == COPYRIGHT_SIGN then
      var d := i + 1 + SpaceRun(s, i + 1);
      if d + 4 <= |s| && forall k :: d <= k < d + 4 ==> IsDigit(s[k]) then d + 4 - i else 0
    else
      0
  }

  /** `MatchAt` finds exactly the matches the pattern describes. */
  lemma MatchAtIsMatch(s: string, i: nat, w: nat)
    requires i <= |s|
    ensures IsMatch(s, i, w) <==> MatchAt(s, i) == w + 5
  {
    if IsMatch(s, i, w) {
      var n := SpaceRun(s, i + 1);
      assert !IsSpace(s[i + 1 + w]);
      assert n == w;
    }
  }

  /** The outcome of searching for the pattern. */
  datatype Search = NotFound | Found(start: nat, len: nat)

  /** The leftmost match at or after `start`: how `String.prototype.replace` searches. */
  function FirstMatch(s: string, start: nat): (r: Search)
    requires start <= |s|
    ensures r.Found? ==> start <= r.start <= |s| && r.len != 0 && MatchAt(s, r.start) == r.len
    ensures forall j :: start <= j <= |s| && (r.NotFound? || j < r.start) ==> MatchAt(s, j) == 0
    decreases |s| - start
  {
    var len := MatchAt(s, start);
    if len != 0 then Found(start, len)
    else if start == |s| then NotFound
    else FirstMatch(s, start + 1)
  }

  /** Decimal notation of a non-negative number, as `${year}` renders it. */
  function DecimalString(n: nat): (s: string)
    ensures |s| >= 1
    ensures forall k :: 0 <= k < |s| ==> IsDigit(s[k])
    ensures s[0] == '0' <==> n == 0
  {
    var last := ['0' + (n % 10) as char];
    if n < 10 then last else DecimalString(n / 10) + last
  }

  function DigitValue(c: char): nat
    requires IsDigit(c)
  {
    c as int - '0' as int
  }

  /** The value of a string of decimal digits. */
  function DigitsValue(s: string): nat
    requires forall k :: 0 <= k < |s| ==> IsDigit(s[k])
  {
    if s == [] then 0 else 10 * DigitsValue(s[..|s| - 1]) + DigitValue(s[|s| - 1])
  }

  lemma {:induction false} DecimalStringRoundTrip(n: nat)
    ensures DigitsValue(DecimalString(n)) == n
  {
    var s := DecimalString(n);
    if n >= 10 {
      DecimalStringRoundTrip(n / 10);
      assert s[..|s| - 1] == DecimalString(n / 10);
    }
  }

  lemma FourDigitYear(year: nat)
    requires 1000 <= year <= 9999
    ensures |DecimalString(year)| == 4
  {
    assert |DecimalString(year / 1000)| == 1;
    assert |DecimalString(year / 100)| == 2;
    assert |DecimalString(year / 10)| == 3;
  }

  /** The replacement text `© ${year}`. */
  function Replacement(year: nat): string
  {
    [COPYRIGHT_SIGN, ' '] + DecimalString(year)
  }

  /** `text` with its `len` characters at `start` replaced by `rep`. */
  function Splice(text: string, start: nat, len: nat, rep: string): (r: string)
    requires start + len <= |text|
    ensures |r| == |text| - len + |rep|
    ensures r[..start] == text[..start] && r[start..start + |rep|] == rep && r[start + |rep|..] == text[start + len..]
  {
    text[..start] + rep + text[start + len..]
  }

  /**
   * `text.replace(/©\s*\d{4}/, rep)` for a replacement without `$` patterns: without
   * a match the text is returned as it is; otherwise the text before the first
   * match is kept, the match becomes `rep`, and the text after it is kept.
   */
  function ReplaceFirst(text: string, rep: string): (r: string)
    ensures FirstMatch(text, 0).NotFound? ==> r == text
    ensures FirstMatch(text, 0).Found? ==>
      var i, n := FirstMatch(text, 0).start, FirstMatch(text, 0).len;
      && i + n <= |text| && |r| == |text| - n + |rep|
      && r[..i] == text[..i] && r[i..i + |rep|] == rep && r[i + |rep|..] == text[i + n..]
  {
    var m := FirstMatch(text, 0);
    if m.NotFound? then text else Splice(text, m.start, m.len, rep)
  }

  /** At `i`, `r` reads the copyright sign, one space, and the digits of a number whose value is `year`. */
  predicate ReadsYearAt(r: string, i: nat, year: nat)
  {
    var d := |DecimalString(year)|;
    && i + 2 + d <= |r| && r[i] == COPYRIGHT_SIGN && r[i + 1] == ' '
    && (forall k :: i + 2 <= k < i + 2 + d ==> IsDigit(r[k]))
    && DigitsValue(r[i + 2..i + 2 + d]) == year
  }

  /** Wherever `© ${year}` was inserted, the text reads the year back. */
  lemma ReplacementDigits(r: string, i: nat, year: nat)
    requires i + |Replacement(year)| <= |r| && r[i..i + |Replacement(year)|] == Replacement(year)
    ensures ReadsYearAt(r, i, year)
  {
    var rep := Replacement(year);
    assert r[i] == r[i..i + |rep|][0] && r[i + 1] == r[i..i + |rep|][1];
    assert r[i + 2..i + |rep|] == rep[2..] == DecimalString(year);
    DecimalStringRoundTrip(year);
  }

  /**
   * `text.replace(/©\s*\d{4}/, `© ${year}`)`: without a match the text is
   * unchanged; otherwise the text before the first match is kept and the
   * match now reads the copyright sign, one space and the year.
   */
  function Rewrite(text: string, year: nat): (r: string)
    ensures FirstMatch(text, 0).NotFound? ==> r == text
    ensures FirstMatch(text, 0).Found? ==>
      var i := FirstMatch(text, 0).start;
      i <= |r| && r[..i] == text[..i] && ReadsYearAt(r, i, year)
  {
    var r := ReplaceFirst(text, Replacement(year));
    if FirstMatch(text, 0).Found? then
      ReplacementDigits(r, FirstMatch(text, 0).start, year);
      r
    else
      r
  }

  /** Text in which the pattern does not occur is returned unchanged. */
  lemma RewriteWithoutMatch(text: string, year: nat)
    requires forall i: nat, w: nat :: !IsMatch(text, i, w)
    ensures Rewrite(text, year) == text
  {
  }

  /** When `start` is the leftmost position where the pattern can match, that match is the one found. */
  lemma FirstMatchIsLeftmost(s: string, start: nat)
    requires start <= |s| && MatchAt(s, start) != 0
    requires forall j :: 0 <= j < start ==> MatchAt(s, j) == 0
    ensures FirstMatch(s, 0) == Found(start, MatchAt(s, start))
  {
  }

  /**
   * The leftmost match, with `w` whitespace characters, is replaced; the text
   * before and after it is kept exactly.
   */
  lemma RewriteAtFirstMatch(text: string, year: nat, i: nat, w: nat)
    requires IsMatch(text, i, w)
    requires forall j: nat, v: nat :: j < i ==> !IsMatch(text, j, v)
    ensures Rewrite(text, year) == Splice(text, i, 5 + w, Replacement(year))
  {
    MatchAtIsMatch(text, i, w);
    forall j | 0 <= j < i
      ensures MatchAt(text, j) == 0
    {
    }
    FirstMatchIsLeftmost(text, i);
  }

  /**
   * Whether the pattern matches at `j` depends only on the text up to the next
   * copyright sign at `i`, since a sign is neither whitespace nor a digit.
   */
  lemma MatchBeforeSign(s: string, t: string, j: nat, i: nat)
    requires j < i < |s| && i < |t| && s[i] == COPYRIGHT_SIGN
    requires forall k :: j <= k <= i ==> s[k] == t[k]
    ensures MatchAt(s, j) == MatchAt(t, j)
  {
    forall w: nat | IsMatch(s, j, w) || IsMatch(t, j, w)
      ensures IsMatch(s, j, w) && IsMatch(t, j, w)
    {
    }
    if MatchAt(s, j) != 0 {
      MatchAtIsMatch(s, j, MatchAt(s, j) - 5);
      MatchAtIsMatch(t, j, MatchAt(s, j) - 5);
    } else if MatchAt(t, j) != 0 {
      MatchAtIsMatch(t, j, MatchAt(t, j) - 5);
      MatchAtIsMatch(s, j, MatchAt(t, j) - 5);
    }
  }

  lemma SplicePointwise(text: string, start: nat, len: nat, rep: string)
    requires start + len <= |text|
    ensures var r := Splice(text, start, len, rep);
      && (forall k :: 0 <= k < start ==> r[k] == text[k])
      && (forall k :: 0 <= k < |rep| ==> r[start + k] == rep[k])
  {
    var r := Splice(text, start, len, rep);
    forall k | 0 <= k < start
      ensures r[k] == text[k]
    {
      assert r[..start][k] == r[k];
    }
    forall k | 0 <= k < |rep|
      ensures r[start + k] == rep[k]
    {
      assert r[start..start + |rep|][k] == r[start + k];
    }
  }

  /** A `© dddd` text at `i` is a match of length 6. */
  lemma ReplacementMatches(r: string, i: nat)
    requires i + 6 <= |r| && r[i] == COPYRIGHT_SIGN && r[i + 1] == ' '
    requires forall k :: i + 2 <= k < i + 6 ==> IsDigit(r[k])
    ensures MatchAt(r, i) == 6
  {
    assert IsMatch(r, i, 1);
    MatchAtIsMatch(r, i, 1);
  }

  /** Changing nothing before a copyright sign adds no match before it. */
  lemma NoMatchBeforeSign(text: string, r: string, i: nat)
    requires i < |text| && i < |r| && text[i] == COPYRIGHT_SIGN && r[i] == COPYRIGHT_SIGN
    requires forall k :: 0 <= k < i ==> r[k] == text[k]
    requires forall j :: 0 <= j < i ==> MatchAt(text, j) == 0
    ensures forall j :: 0 <= j < i ==> MatchAt(r, j) == 0
  {
    forall j | 0 <= j < i
      ensures MatchAt(r, j) == 0
    {
      MatchBeforeSign(text, r, j, i);
    }
  }

  /** A replacement `© dddd` spliced in at the first match is found again, at the same place. */
  lemma SplicedMatchFound(text: string, i: nat, n: nat, rep: string)
    requires FirstMatch(text, 0) == Found(i, n)
    requires |rep| == 6 && rep[0] == COPYRIGHT_SIGN && rep[1] == ' '
    requires forall k :: 2 <= k < 6 ==> IsDigit(rep[k])
    ensures i + n <= |text|
    ensures FirstMatch(Splice(text, i, n, rep), 0) == Found(i, 6)
  {
    assert IsMatch(text, i, n - 5);
    var r := Splice(text, i, n, rep);
    SplicePointwise(text, i, n, rep);
    assert r[i] == rep[0] && r[i + 1] == rep[1];
    assert forall k :: i + 2 <= k < i + 6 ==> r[k] == rep[k - i];
    ReplacementMatches(r, i);
    NoMatchBeforeSign(text, r, i);
    FirstMatchIsLeftmost(r, i);
  }

  /** `ReplaceFirst` splices the replacement in place of the match it found. */
  lemma ReplaceFirstFound(text: string, rep: string, i: nat, n: nat)
    requires FirstMatch(text, 0) == Found(i, n) && i + n <= |text|
    ensures ReplaceFirst(text, rep) == Splice(text, i, n, rep)
  {
  }

  /** Splicing the same replacement again over the spliced part changes nothing. */
  lemma SpliceAgain(text: string, start: nat, len: nat, rep: string)
    requires start + len <= |text|
    ensures Splice(Splice(text, start, len, rep), start, |rep|, rep) == Splice(text, start, len, rep)
  {
  }

  /** Replacing the first match by a `© dddd` text a second time changes nothing more. */
  lemma ReplaceFirstIdempotent(text: string, rep: string)
    requires |rep| == 6 && rep[0] == COPYRIGHT_SIGN && rep[1] == ' '
    requires forall k :: 2 <= k < 6 ==> IsDigit(rep[k])
    ensures ReplaceFirst(ReplaceFirst(text, rep), rep) == ReplaceFirst(text, rep)
  {
    var m := FirstMatch(text, 0);
    if m.Found? {
      SplicedMatchFound(text, m.start, m.len, rep);
      ReplaceFirstFound(text, rep, m.start, m.len);
      ReplaceFirstFound(Splice(text, m.start, m.len, rep), rep, m.start, 6);
      SpliceAgain(text, m.start, m.len, rep);
    }
  }

  /** For a four-digit year, rewriting the rewritten text changes nothing more. */
  lemma RewriteIdempotent(text: string, year: nat)
    requires 1000 <= year <= 9999
    ensures Rewrite(Rewrite(text, year), year) == Rewrite(text, year)
  {
    FourDigitYear(year);
    ReplaceFirstIdempotent(text, Replacement(year));
  }

  lemma ExampleReplacement(year: nat)
    requires year == 2026
    ensures Replacement(year) == "© 2026"
  {
    assert DecimalString(2) == "2";
    assert DecimalString(20) == "20";
    assert DecimalString(202) == "202";
    assert DecimalString(2026) == "2026";
  }

  lemma ExampleMatchAtStart(text: string)
    requires text == "© 2020 Example"
    ensures IsMatch(text, 0, 1) && text[6..] == " Example"
  {
  }

  lemma ExampleMatch(text: string, year: nat)
    requires text == "© 2020 Example"
    ensures Rewrite(text, year) == Replacement(year) + " Example"
  {
    ExampleMatchAtStart(text);
    RewriteAtFirstMatch(text, year, 0, 1);
    var rep := Replacement(year);
    var r := Splice(text, 0, 6, rep);
    assert r == r[..|rep|] + r[|rep|..];
  }

  /** The example footer of the page: "© 2020 Example" becomes "© 2026 Example" in 2026. */
  lemma ExampleFooter(text: string, year: nat)
    requires text == "© 2020 Example" && year == 2026
    ensures Rewrite(text, year) == "© 2026 Example"
  {
    ExampleMatch(text, year);
    ExampleReplacement(year);
  }
}
