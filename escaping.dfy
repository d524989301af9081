/** `escapeHtml` and the fallback branch of `cssEscape` in app.js. */
module Escaping {
  import opened Common
  import opened JsString

  const Amp: string := "&amp;"
  const Lt: string := "&lt;"
  const Gt: string := "&gt;"
  const Quot: string := "&quot;"
  const Apos: string := "&#039;"

  /** `String(value).replaceAll("&", "&amp;")` ... `.replaceAll("'", "&#039;")`,
      in the source's order. */
  function EscapeHtml(value: string): (r: string)
    ensures '<' !in r && '>' !in r && '"' !in r && '\'' !in r
  {
    ReplaceAll(ReplaceAll(ReplaceAll(ReplaceAll(ReplaceAll(
      value, '&', Amp), '<', Lt), '>', Gt), '"', Quot), '\'', Apos)
  }

  /** The entity each character becomes, as a reference for EscapeHtml. */
  function EscapeChar(c: char): string {
    if c == '&' then Amp
    else if c == '<' then Lt
    else if c == '>' then Gt
    else if c == '"' then Quot
    else if c == '\'' then Apos
    else [c]
  }

  function EscapeEach(s: string): string {
    if s == [] then [] else EscapeChar(s[0]) + EscapeEach(s[1..])
  }

  lemma EscapeHtmlAppend(a: string, b: string)
    ensures EscapeHtml(a + b) == EscapeHtml(a) + EscapeHtml(b)
  {
    var a1, b1 := ReplaceAll(a, '&', Amp), ReplaceAll(b, '&', Amp);
    ReplaceAllAppend(a, b, '&', Amp);
    var a2, b2 := ReplaceAll(a1, '<', Lt), ReplaceAll(b1, '<', Lt);
    ReplaceAllAppend(a1, b1, '<', Lt);
    var a3, b3 := ReplaceAll(a2, '>', Gt), ReplaceAll(b2, '>', Gt);
    ReplaceAllAppend(a2, b2, '>', Gt);
    var a4, b4 := ReplaceAll(a3, '"', Quot), ReplaceAll(b3, '"', Quot);
    ReplaceAllAppend(a3, b3, '"', Quot);
    ReplaceAllAppend(a4, b4, '\'', Apos);
  }

  lemma ReplaceAllOne(c: char, pattern: char, rep: string)
    ensures ReplaceAll([c], pattern, rep) == if c == pattern then rep else [c]
  {
    assert [c][1..] == [];
  }

  /** The last `replaceAll` step leaves text without `'` alone. */
  lemma PassesLastStep(e: string)
    requires '\'' !in e
    ensures ReplaceAll(e, '\'', Apos) == e
  {
    ReplaceAllAbsent(e, '\'', Apos);
  }

  /** The last two steps leave text without `"` and `'` alone. */
  lemma PassesLastTwoSteps(e: string)
    requires '"' !in e && '\'' !in e
    ensures ReplaceAll(ReplaceAll(e, '"', Quot), '\'', Apos) == e
  {
    ReplaceAllAbsent(e, '"', Quot);
    PassesLastStep(e);
  }

  /** The last three steps leave text without `>`, `"` and `'` alone. */
  lemma PassesLastThreeSteps(e: string)
    requires '>' !in e && '"' !in e && '\'' !in e
    ensures ReplaceAll(ReplaceAll(ReplaceAll(e, '>', Gt), '"', Quot), '\'', Apos) == e
  {
    ReplaceAllAbsent(e, '>', Gt);
    PassesLastTwoSteps(e);
  }

  /** The last four steps leave text without `<`, `>`, `"` and `'` alone. */
  lemma PassesLastFourSteps(e: string)
    requires '<' !in e && '>' !in e && '"' !in e && '\'' !in e
    ensures ReplaceAll(ReplaceAll(ReplaceAll(ReplaceAll(e, '<', Lt), '>', Gt), '"', Quot), '\'', Apos) == e
  {
    ReplaceAllAbsent(e, '<', Lt);
    PassesLastThreeSteps(e);
  }

  /** Replacing `&` first means no later step touches an entity already written. */
  lemma EscapeHtmlOneChar(c: char)
    ensures EscapeHtml([c]) == EscapeChar(c)
  {
    ReplaceAllOne(c, '&', Amp);
    if c == '&' {
      PassesLastFourSteps(Amp);
    } else {
      ReplaceAllOne(c, '<', Lt);
      if c == '<' {
        PassesLastThreeSteps(Lt);
      } else {
        ReplaceAllOne(c, '>', Gt);
        if c == '>' {
          PassesLastTwoSteps(Gt);
        } else {
          ReplaceAllOne(c, '"', Quot);
          if c == '"' {
            PassesLastStep(Quot);
          } else {
            ReplaceAllOne(c, '\'', Apos);
          }
        }
      }
    }
  }

  /** The chain of `replaceAll` calls escapes each character on its own. */
  lemma {:induction false} EscapeHtmlPerChar(s: string)
    ensures EscapeHtml(s) == EscapeEach(s)
    decreases |s|
  {
    if s == [] {
      assert EscapeHtml(s) == [];
    } else {
      EscapeHtmlPerChar(s[1..]);
      assert s == [s[0]] + s[1..];
      EscapeHtmlAppend([s[0]], s[1..]);
      EscapeHtmlOneChar(s[0]);
    }
  }

  predicate StartsEntity(t: string) {
    Amp <= t || Lt <= t || Gt <= t || Quot <= t || Apos <= t
  }

  /** Every `&` of `t` begins an entity. */
  predicate AmpersandsStartEntities(t: string) {
    forall i :: 0 <= i < |t| && t[i] == '&' ==> StartsEntity(t[i..])
  }

  lemma {:induction false} EachAmpersandStartsEntity(s: string)
    ensures AmpersandsStartEntities(EscapeEach(s))
    decreases |s|
  {
    if s != [] {
      EachAmpersandStartsEntity(s[1..]);
      var chunk, rest := EscapeChar(s[0]), EscapeEach(s[1..]);
      assert AmpersandsStartEntities(rest);
      var r := chunk + rest;
      forall i | 0 <= i < |r| && r[i] == '&'
        ensures StartsEntity(r[i..])
      {
        if i < |chunk| {
          assert r[i] == chunk[i];
          assert i == 0 && r[i..] == r && chunk <= r;
          assert chunk == Amp || chunk == Lt || chunk == Gt || chunk == Quot || chunk == Apos;
          assert StartsEntity(r);
        } else {
          assert rest[i - |chunk|] == r[i];
          assert r[i..] == rest[i - |chunk|..];
          assert StartsEntity(rest[i - |chunk|..]);
        }
      }
    }
  }

  lemma {:induction false} EachHasNoMarkup(s: string)
    ensures var r := EscapeEach(s); '<' !in r && '>' !in r && '"' !in r && '\'' !in r
    decreases |s|
  {
    if s != [] {
      EachHasNoMarkup(s[1..]);
    }
  }

  /** Every `&` in the output of `escapeHtml` begins one of the five entities. */
  lemma EscapedAmpersandsStartEntities(value: string)
    ensures AmpersandsStartEntities(EscapeHtml(value))
  {
    EscapeHtmlPerChar(value);
    EachAmpersandStartsEntity(value);
  }

  /** Decoding of the five entities, left to right. */
  function UnescapeHtml(t: string): string
    decreases |t|
  {
    if t == [] then []
    else if Amp <= t then ['&'] + UnescapeHtml(t[|Amp|..])
    else if Lt <= t then ['<'] + UnescapeHtml(t[|Lt|..])
    else if Gt <= t then ['>'] + UnescapeHtml(t[|Gt|..])
    else if Quot <= t then ['"'] + UnescapeHtml(t[|Quot|..])
    else if Apos <= t then ['\''] + UnescapeHtml(t[|Apos|..])
    else [t[0]] + UnescapeHtml(t[1..])
  }

  lemma UnescapeChunk(c: char, rest: string)
    ensures UnescapeHtml(EscapeChar(c) + rest) == [c] + UnescapeHtml(rest)
  {
    var t := EscapeChar(c) + rest;
    assert t[|EscapeChar(c)|..] == rest;
    if c == '&' {
      assert Amp <= t;
    } else if c == '<' {
      assert Lt <= t && t[1] == 'l';
    } else if c == '>' {
      assert Gt <= t && t[1] == 'g';
    } else if c == '"' {
      assert Quot <= t && t[1] == 'q';
    } else if c == '\'' {
      assert Apos <= t && t[1] == '#';
    } else {
      assert t[0] == c;
    }
  }

  /** Decoding the entities recovers the input of `escapeHtml`. */
  lemma {:induction false} UnescapeEscapeEach(s: string)
    ensures UnescapeHtml(EscapeEach(s)) == s
    decreases |s|
  {
    if s != [] {
      UnescapeEscapeEach(s[1..]);
      UnescapeChunk(s[0], EscapeEach(s[1..]));
    }
  }

  lemma EscapeHtmlRoundTrip(value: string)
    ensures UnescapeHtml(EscapeHtml(value)) == value
  {
    EscapeHtmlPerChar(value);
    UnescapeEscapeEach(value);
  }

  /** `value.replace(/"/g, "\\\"")`: the fallback when `CSS.escape` is missing. */
  function CssEscapeFallback(value: string): (r: string)
    ensures forall d :: d in r ==> d in value || d == '\\'
  {
    ReplaceAll(value, '"', "\\\"")
  }

  /** Every `"` the fallback leaves is preceded by a backslash. */
  lemma {:induction false} FallbackQuotesAreEscaped(value: string)
    ensures var r := CssEscapeFallback(value);
              forall i :: 0 <= i < |r| && r[i] == '"' ==> i > 0 && r[i - 1] == '\\'
    decreases |value|
  {
    if value != [] {
      FallbackQuotesAreEscaped(value[1..]);
      var chunk := if value[0] == '"' then "\\\"" else [value[0]];
      var rest := CssEscapeFallback(value[1..]);
      var r := chunk + rest;
      forall i | 0 <= i < |r| && r[i] == '"'
        ensures i > 0 && r[i - 1] == '\\'
      {
        if i >= |chunk| {
          assert r[i] == rest[i - |chunk|];
          assert i - |chunk| > 0;
          assert r[i - 1] == rest[i - 1 - |chunk|];
        } else {
          assert chunk == "\\\"" && i == 1;
        }
      }
    }
  }

  predicate IsCssNewline(c: char) {
    c == '\n' || c == '\r' || c == '\U{C}'
  }

  predicate IsHexDigit(c: char) {
    ('0' <= c <= '9') || ('a' <= c <= 'f') || ('A' <= c <= 'F')
  }

  predicate IsCssWhitespace(c: char) {
    IsCssNewline(c) || c == '\t' || c == ' '
  }

  function HexDigitValue(c: char): (v: nat)
    requires IsHexDigit(c)
    ensures v < 16
  {
    if '0' <= c <= '9' then c as nat - '0' as nat
    else if 'a' <= c <= 'f' then c as nat - 'a' as nat + 10
    else c as nat - 'A' as nat + 10
  }

  /** How many hex digits, at most `max`, open `t`. */
  function HexRunLength(t: string, max: nat): (n: nat)
    ensures n <= max && n <= |t|
    ensures forall i :: 0 <= i < n ==> IsHexDigit(t[i])
    ensures n < max && n < |t| ==> !IsHexDigit(t[n])
  {
    if max == 0 || t == [] || !IsHexDigit(t[0]) then 0
    else 1 + HexRunLength(t[1..], max - 1)
  }

  /** The number the hex digits spell, most significant first. */
  function HexNumber(digits: string): nat
    requires forall i :: 0 <= i < |digits| ==> IsHexDigit(digits[i])
  {
    if digits == [] then 0
    else HexNumber(digits[..|digits| - 1]) * 16 + HexDigitValue(digits[|digits| - 1])
  }

  /** Zero, a surrogate or a number past the last code point reads as U+FFFD. */
  function EscapedCodePoint(v: nat): (c: char)
    ensures (v == 0 || 0xD800 <= v <= 0xDFFF || v > 0x10FFFF) <==> c == '\U{FFFD}' && v != 0xFFFD
    ensures c != '\U{FFFD}' ==> c as nat == v
  {
    if v == 0 || 0xD800 <= v <= 0xDFFF || v > 0x10FFFF then '\U{FFFD}' else v as char
  }

  /** A string token: its value, and the input left after its closing quote. */
  datatype StringToken = StringToken(value: string, rest: string)

  function Prepend(s: string, r: Option<StringToken>): Option<StringToken> {
    match r
    case None => None
    case Some(tok) => Some(StringToken(s + tok.value, tok.rest))
  }

  lemma PrependTwice(a: string, b: string, r: Option<StringToken>)
    ensures Prepend(a, Prepend(b, r)) == Prepend(a + b, r)
  {
    match r
    case None =>
    case Some(tok) => assert a + (b + tok.value) == (a + b) + tok.value;
  }

  /** The string-token rule of CSS Syntax Level 3 (section 4.3.5, "Consume a
      string token", with "Consume an escaped code point" of section 4.3.7),
      for the input after an opening `"`. None stands for a bad string: an
      unescaped newline. At the end of input the string token is returned
      as read so far. */
  function ReadCssString(t: string): Option<StringToken>
    decreases |t|
  {
    if t == [] then Some(StringToken("", ""))
    else if t[0] == '"' then Some(StringToken("", t[1..]))
    else if IsCssNewline(t[0]) then None
    else if t[0] == '\\' then
      if |t| == 1 then Some(StringToken("", ""))
      else if IsCssNewline(t[1]) then ReadCssString(t[2..])
      else if IsHexDigit(t[1]) then
        var n := HexRunLength(t[1..], 6);
        var after := t[1 + n..];
        var rest := if after != [] && IsCssWhitespace(after[0]) then after[1..] else after;
        Prepend([EscapedCodePoint(HexNumber(t[1..1 + n]))], ReadCssString(rest))
      else Prepend([t[1]], ReadCssString(t[2..]))
    else Prepend([t[0]], ReadCssString(t[1..]))
  }

  /** The value that the selector `option[value="` + escaped + `"]` compares
      against, or None when the selector is rejected. The string either
      closes before the final `]`, or runs to the end of the input, where the
      open `[` block is closed as well; anything else after it is invalid. */
  function SelectedValue(escaped: string): Option<string> {
    match ReadCssString(escaped + "\"]")
    case None => None
    case Some(tok) => if tok.rest == "]" || tok.rest == "" then Some(tok.value) else None
  }

  predicate NoCssNewline(s: string) {
    forall i :: 0 <= i < |s| ==> !IsCssNewline(s[i])
  }

  lemma {:induction false} FallbackReadsBack(s: string, tail: string)
    requires NoCssNewline(s) && '\\' !in s
    ensures ReadCssString(CssEscapeFallback(s) + tail) == Prepend(s, ReadCssString(tail))
    decreases |s|
  {
    if s == [] {
      assert CssEscapeFallback(s) + tail == tail;
      match ReadCssString(tail)
      case None =>
      case Some(tok) => assert s + tok.value == tok.value;
    } else {
      FallbackReadsBack(s[1..], tail);
      var chunk := if s[0] == '"' then "\\\"" else [s[0]];
      var t := chunk + (CssEscapeFallback(s[1..]) + tail);
      assert CssEscapeFallback(s) + tail == t;
      assert t[|chunk|..] == CssEscapeFallback(s[1..]) + tail;
      assert t[0] == '\\' ==> s[0] == '"' && t[1] == '"' && t[2..] == CssEscapeFallback(s[1..]) + tail;
      PrependTwice([s[0]], s[1..], ReadCssString(tail));
      assert s == [s[0]] + s[1..];
    }
  }

  /** The fallback is correct exactly for labels without a backslash (and
      without a newline, which no CSS string may hold unescaped). */
  lemma FallbackSelectsLabelWithoutBackslash(text: string)
    requires NoCssNewline(text) && '\\' !in text
    ensures SelectedValue(CssEscapeFallback(text)) == Some(text)
  {
    FallbackReadsBack(text, "\"]");
    assert text + "" == text;
  }

  /** A label ending in a backslash: the fallback leaves `a\`, so the selector
      reads `option[value="a\"]`; its string swallows the closing quote and
      bracket and runs to the end, so it selects the value `a"]`, not `a\`. */
  lemma FallbackBreaksOnTrailingBackslash()
    ensures CssEscapeFallback("a\\") == "a\\"
    ensures SelectedValue(CssEscapeFallback("a\\")) == Some("a\"]")
    ensures SelectedValue(CssEscapeFallback("a\\")) != Some("a\\")
  {
    ReplaceAllAbsent("a\\", '"', "\\\"");
    var t := "a\\\"]";
    assert "a\\" + "\"]" == t;
    assert ReadCssString("") == Some(StringToken("", ""));
    assert "]"[1..] == "";
    assert "]" + "" == "]";
    assert ReadCssString("]") == Some(StringToken("]", ""));
    assert t[1..][2..] == "]";
    assert t[1..][0] == '\\' && t[1..][1] == '"';
    assert "\"" + "]" == "\"]";
    assert ReadCssString(t[1..]) == Some(StringToken("\"]", ""));
    assert "a" + "\"]" == "a\"]";
    assert ReadCssString(t) == Some(StringToken("a\"]", ""));
  }

  const LabelWithHexLikeEscape: string := "a\\b"
  const VerticalTab: char := '\U{B}'

  /** A backslash before a hex digit: the fallback leaves `a\b`, which the
      selector reads as `a` followed by the code point U+000B. */
  lemma FallbackMisreadsHexEscape()
    ensures CssEscapeFallback(LabelWithHexLikeEscape) == LabelWithHexLikeEscape
    ensures SelectedValue(CssEscapeFallback(LabelWithHexLikeEscape)) == Some(['a', VerticalTab])
    ensures SelectedValue(CssEscapeFallback(LabelWithHexLikeEscape)) != Some(LabelWithHexLikeEscape)
  {
    ReplaceAllAbsent(LabelWithHexLikeEscape, '"', "\\\"");
    var t := LabelWithHexLikeEscape + "\"]";
    var u := t[1..];
    assert u == "\\b\"]";
    assert HexRunLength(u[1..], 6) == 1 by {
      assert u[1..][1..] == "\"]";
      assert HexRunLength("\"]", 5) == 0;
    }
    assert u[1..2] == "b";
    assert HexNumber("b") == 11 by {
      assert "b"[..0] == [];
    }
    assert u[2..] == "\"]";
    assert EscapedCodePoint(11) == VerticalTab;
    assert !IsCssWhitespace(u[2..][0]);
    assert ReadCssString("\"]") == Some(StringToken("", "]"));
    assert [VerticalTab] + "" == [VerticalTab];
    assert ReadCssString(u) == Some(StringToken([VerticalTab], "]"));
    assert t[0] == 'a' && t[1..] == u;
    assert ['a'] + [VerticalTab] == ['a', VerticalTab];
    assert ReadCssString(t) == Some(StringToken(['a', VerticalTab], "]"));
  }

  /** The escaper the selector needs: backslash and double quote both
      escaped with a backslash. */
  function CssEscapeString(s: string): string {
    if s == [] then []
    else (if s[0] == '\\' then "\\\\" else if s[0] == '"' then "\\\"" else [s[0]])
         + CssEscapeString(s[1..])
  }

  lemma {:induction false} EscapedStringReadsBack(s: string, tail: string)
    requires NoCssNewline(s)
    ensures ReadCssString(CssEscapeString(s) + tail) == Prepend(s, ReadCssString(tail))
    decreases |s|
  {
    if s == [] {
      assert CssEscapeString(s) + tail == tail;
      match ReadCssString(tail)
      case None =>
      case Some(tok) => assert s + tok.value == tok.value;
    } else {
      EscapedStringReadsBack(s[1..], tail);
      var chunk := if s[0] == '\\' then "\\\\" else if s[0] == '"' then "\\\"" else [s[0]];
      var t := chunk + (CssEscapeString(s[1..]) + tail);
      assert CssEscapeString(s) + tail == t;
      assert t[|chunk|..] == CssEscapeString(s[1..]) + tail;
      assert t[0] == '\\' ==> t[1] == s[0] && t[2..] == CssEscapeString(s[1..]) + tail;
      PrependTwice([s[0]], s[1..], ReadCssString(tail));
      assert s == [s[0]] + s[1..];
    }
  }

  /** With both characters escaped, the selector matches exactly the label. */
  lemma EscapedStringSelectsLabel(text: string)
    requires NoCssNewline(text)
    ensures SelectedValue(CssEscapeString(text)) == Some(text)
  {
    EscapedStringReadsBack(text, "\"]");
    assert text + "" == text;
  }
}
