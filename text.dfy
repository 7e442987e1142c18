/**
 * The two string helpers of the to-do page: `String.prototype.trim`, which decides
 * whether entered text counts as empty, and `escapeHtml`, which makes task text
 * safe to place in markup.
 */
module Text {

  /** The characters `trim` strips: ECMAScript's WhiteSpace and LineTerminator sets. */
  predicate IsWhitespace(c: char)
  {
    c == '\t' || c == '\n' || c == '\U{000B}' || c == '\U{000C}' || c == '\r' || c == ' '
    || c == '\U{00A0}' || c == '\U{1680}' || ('\U{2000}' <= c <= '\U{200A}')
    || c == '\U{2028}' || c == '\U{2029}' || c == '\U{202F}' || c == '\U{205F}'
    || c == '\U{3000}' || c == '\U{FEFF}'
  }

  predicate AllWhitespace(s: string)
  {
    forall k :: 0 <= k < |s| ==> IsWhitespace(s[k])
  }

  /** Drops the leading whitespace: the result is the suffix that starts at the first other character. */
  function TrimStart(s: string): (r: string)
    ensures |r| <= |s| && r == s[|s| - |r|..]
    ensures AllWhitespace(s[..|s| - |r|])
    ensures r == [] || !IsWhitespace(r[0])
  {
    if s != [] && IsWhitespace(s[0]) then TrimStart(s[1..]) else s
  }

  /** Drops the trailing whitespace: the result is the prefix that ends at the last other character. */
  function TrimEnd(s: string): (r: string)
    ensures |r| <= |s| && r == s[..|r|]
    ensures AllWhitespace(s[|r|..])
    ensures r == [] || !IsWhitespace(r[|r| - 1])
  {
    if s != [] && IsWhitespace(s[|s| - 1]) then TrimEnd(s[..|s| - 1]) else s
  }

  /** `s.trim()`: the infix of `s` left once whitespace is dropped from both ends. */
  function Trim(s: string): (r: string)
    ensures r == [] || (!IsWhitespace(r[0]) && !IsWhitespace(r[|r| - 1]))
    ensures exists i :: 0 <= i <= |s| - |r| && r == s[i..i + |r|]
                        && AllWhitespace(s[..i]) && AllWhitespace(s[i + |r|..])
  {
    var t := TrimStart(s);
    var r := TrimEnd(t);
    var i := |s| - |t|;
    assert r == s[i..i + |r|];
    assert s[i + |r|..] == t[|r|..];
    r
  }

  /** Text is empty after trimming exactly when it consists of whitespace only. */
  lemma TrimEmptyIff(s: string)
    ensures Trim(s) == [] <==> AllWhitespace(s)
  {
    var t := TrimStart(s);
    if Trim(s) == [] {
      assert AllWhitespace(t[0..]);
      assert s == s[..|s| - |t|] + t;
    }
  }

  /** Trimming twice is trimming once. */
  lemma TrimIdempotent(s: string)
    ensures Trim(Trim(s)) == Trim(s)
  {
    var r := Trim(s);
    assert TrimStart(r) == r;
  }

  /** `s.replace(/c/g, rep)`: every occurrence of `c` replaced by `rep`. */
  function ReplaceAll(s: string, c: char, rep: string): (r: string)
    ensures c !in s ==> r == s
    ensures c !in rep ==> c !in r
  {
    if s == [] then []
    else (if s[0] == c then rep else [s[0]]) + ReplaceAll(s[1..], c, rep)
  }

  /**
   * A character occurs after the replacement exactly when it occurred before and is
   * not the replaced one, or the replaced one occurred and the replacement holds it.
   */
  lemma {:induction false} ReplaceAllHas(s: string, c: char, rep: string, x: char)
    ensures x in ReplaceAll(s, c, rep) <==> (x in s && x != c) || (c in s && x in rep)
  {
    if s != [] {
      assert s == [s[0]] + s[1..];
      ReplaceAllHas(s[1..], c, rep, x);
    }
  }

  /** `escapeHtml`: `&` first, then `<`, then `>`, each in its own pass over the whole string. */
  function EscapeHtml(s: string): (r: string)
    ensures '<' !in r && '>' !in r
    ensures '&' !in s && '<' !in s && '>' !in s ==> r == s
  {
    var amp := ReplaceAll(s, '&', "&amp;");
    var lt := ReplaceAll(amp, '<', "&lt;");
    ReplaceAllHas(lt, '>', "&gt;", '<');
    ReplaceAll(lt, '>', "&gt;")
  }

  /**
   * The markup one character stands for after escaping, written as a single pass:
   * the reference that the three-pass `EscapeHtml` (quotes == false) and the
   * attribute-safe `EscapeAttribute` (quotes == true) are proved to agree with.
   */
  function EscapeChar(c: char, quotes: bool): string
  {
    if c == '&' then "&amp;"
    else if c == '<' then "&lt;"
    else if c == '>' then "&gt;"
    else if c == '"' && quotes then "&quot;"
    else [c]
  }

  function EscapeEach(s: string, quotes: bool): string
  {
    if s == [] then [] else EscapeChar(s[0], quotes) + EscapeEach(s[1..], quotes)
  }

  /**
   * What a browser shows for escaped text: the character references `&amp;`,
   * `&lt;`, `&gt;` and `&quot;` decoded, every other character kept.
   */
  function Unescape(s: string): string
  {
    if s == [] then []
    else if |s| >= 5 && s[..5] == "&amp;" then "&" + Unescape(s[5..])
    else if |s| >= 4 && s[..4] == "&lt;" then "<" + Unescape(s[4..])
    else if |s| >= 4 && s[..4] == "&gt;" then ">" + Unescape(s[4..])
    else if |s| >= 6 && s[..6] == "&quot;" then "\"" + Unescape(s[6..])
    else [s[0]] + Unescape(s[1..])
  }

  lemma {:induction false} ReplaceAllConcat(a: string, b: string, c: char, rep: string)
    ensures ReplaceAll(a + b, c, rep) == ReplaceAll(a, c, rep) + ReplaceAll(b, c, rep)
  {
    if a == [] {
      assert a + b == b;
    } else {
      assert (a + b)[0] == a[0];
      assert (a + b)[1..] == a[1..] + b;
      ReplaceAllConcat(a[1..], b, c, rep);
    }
  }

  lemma EscapeHtmlConcat(a: string, b: string)
    ensures EscapeHtml(a + b) == EscapeHtml(a) + EscapeHtml(b)
  {
    var a1, b1 := ReplaceAll(a, '&', "&amp;"), ReplaceAll(b, '&', "&amp;");
    var a2, b2 := ReplaceAll(a1, '<', "&lt;"), ReplaceAll(b1, '<', "&lt;");
    ReplaceAllConcat(a, b, '&', "&amp;");
    ReplaceAllConcat(a1, b1, '<', "&lt;");
    ReplaceAllConcat(a2, b2, '>', "&gt;");
  }

  lemma EscapeHtmlOfChar(c: char)
    ensures EscapeHtml([c]) == EscapeChar(c, false)
  {
    var amp := ReplaceAll([c], '&', "&amp;");
    assert amp == (if c == '&' then "&amp;" else [c]) + ReplaceAll([], '&', "&amp;");
    var lt := ReplaceAll(amp, '<', "&lt;");
    if c == '<' {
      assert lt == "&lt;" + ReplaceAll([], '<', "&lt;");
    } else {
      assert lt == amp;
    }
    if c == '>' {
      assert ReplaceAll(lt, '>', "&gt;") == "&gt;" + ReplaceAll([], '>', "&gt;");
    } else {
      assert '>' !in lt;
    }
  }

  /** The three sequential passes of `escapeHtml` agree with escaping character by character. */
  lemma {:induction false} EscapeHtmlIsEscapeEach(s: string)
    ensures EscapeHtml(s) == EscapeEach(s, false)
  {
    if s != [] {
      assert s == [s[0]] + s[1..];
      EscapeHtmlConcat([s[0]], s[1..]);
      EscapeHtmlOfChar(s[0]);
      EscapeHtmlIsEscapeEach(s[1..]);
    }
  }

  /** Decoding an escaped character and then the rest gives that character, then the decoded rest. */
  lemma UnescapeEscapeChar(c: char, quotes: bool, rest: string)
    ensures Unescape(EscapeChar(c, quotes) + rest) == [c] + Unescape(rest)
  {
    var e := EscapeChar(c, quotes);
    var s := e + rest;
    assert s[..|e|] == e;
    if c == '&' {
      assert s[5..] == rest;
    } else if c == '<' {
      assert |s| >= 5 ==> s[..5][1] == 'l';
      assert s[4..] == rest;
    } else if c == '>' {
      assert |s| >= 5 ==> s[..5][1] == 'g';
      assert s[..4][1] == 'g';
      assert s[4..] == rest;
    } else if c == '"' && quotes {
      assert s[..5][1] == 'q' && s[..4][1] == 'q';
      assert s[6..] == rest;
    } else {
      assert s[0] == c;
      assert |s| >= 4 ==> s[..4][0] == c;
      assert |s| >= 5 ==> s[..5][0] == c;
      assert |s| >= 6 ==> s[..6][0] == c;
      assert s[1..] == rest;
    }
  }

  lemma {:induction false} UnescapeEscapeEach(s: string, quotes: bool)
    ensures Unescape(EscapeEach(s, quotes)) == s
  {
    if s != [] {
      UnescapeEscapeChar(s[0], quotes, EscapeEach(s[1..], quotes));
      UnescapeEscapeEach(s[1..], quotes);
    }
  }

  /** Escaping loses nothing: the browser shows exactly the original text. */
  lemma EscapeHtmlRoundTrip(s: string)
    ensures Unescape(EscapeHtml(s)) == s
  {
    EscapeHtmlIsEscapeEach(s);
    UnescapeEscapeEach(s, false);
  }

  /** The value of a double-quoted attribute, `value="…"`: what the parser reads up to the first `"`. */
  function AttributeValue(s: string): (r: string)
    ensures '"' !in r
    ensures r <= s
  {
    if s == [] || s[0] == '"' then [] else [s[0]] + AttributeValue(s[1..])
  }

  lemma {:induction false} AttributeValueOfQuoted(s: string)
    requires '"' !in s
    ensures AttributeValue(s + "\"") == s
  {
    if s != [] {
      assert (s + "\"")[1..] == s[1..] + "\"";
      AttributeValueOfQuoted(s[1..]);
    }
  }

  /**
   * `escapeHtml` output placed in `value="…"`, as the edit field does: a `"` in the
   * task text survives escaping and ends the attribute early.
   */
  lemma EscapeHtmlCutsAttribute(s: string)
    requires '"' in s
    ensures '"' in EscapeHtml(s)
    ensures AttributeValue(EscapeHtml(s) + "\"") != EscapeHtml(s)
  {
    var amp := ReplaceAll(s, '&', "&amp;");
    var lt := ReplaceAll(amp, '<', "&lt;");
    ReplaceAllHas(s, '&', "&amp;", '"');
    ReplaceAllHas(amp, '<', "&lt;", '"');
    ReplaceAllHas(lt, '>', "&gt;", '"');
  }

  /** A concrete case: the edit field for the task `a"b` is filled with `a`. */
  lemma EditFieldLosesText()
    ensures Unescape(AttributeValue(EscapeHtml("a\"b") + "\"")) == "a"
  {
    var t := "a\"b";
    assert t[0] == 'a' && t[1] == '"' && t[2] == 'b' && |t| == 3;
    assert '&' !in t && '<' !in t && '>' !in t;
    var v := t + "\"";
    assert v == ['a'] + "\"b\"";
    assert AttributeValue(v) == ['a'] + AttributeValue("\"b\"");
    assert Unescape("a") == ['a'] + Unescape([]);
  }

  /** Escaping for attribute values: `escapeHtml` followed by `"` replaced with `&quot;`. */
  function EscapeAttribute(s: string): (r: string)
    ensures '<' !in r && '>' !in r && '"' !in r
  {
    ReplaceAllHas(EscapeHtml(s), '"', "&quot;", '<');
    ReplaceAllHas(EscapeHtml(s), '"', "&quot;", '>');
    ReplaceAll(EscapeHtml(s), '"', "&quot;")
  }

  lemma EscapeAttributeConcat(a: string, b: string)
    ensures EscapeAttribute(a + b) == EscapeAttribute(a) + EscapeAttribute(b)
  {
    EscapeHtmlConcat(a, b);
    ReplaceAllConcat(EscapeHtml(a), EscapeHtml(b), '"', "&quot;");
  }

  lemma QuoteAttribute()
    ensures ReplaceAll("\"", '"', "&quot;") == "&quot;"
  {
    assert ReplaceAll("\"", '"', "&quot;") == "&quot;" + ReplaceAll([], '"', "&quot;");
  }

  lemma EscapeAttributeOfChar(c: char)
    ensures EscapeAttribute([c]) == EscapeChar(c, true)
  {
    EscapeHtmlOfChar(c);
    var e := EscapeHtml([c]);
    assert EscapeAttribute([c]) == ReplaceAll(e, '"', "&quot;");
    if c == '"' {
      assert e == "\"";
      QuoteAttribute();
    } else if c == '&' {
      assert e == "&amp;";
    } else if c == '<' {
      assert e == "&lt;";
    } else if c == '>' {
      assert e == "&gt;";
    } else {
      assert e == [c];
    }
  }

  lemma {:induction false} EscapeAttributeIsEscapeEach(s: string)
    ensures EscapeAttribute(s) == EscapeEach(s, true)
  {
    if s != [] {
      assert s == [s[0]] + s[1..];
      EscapeAttributeConcat([s[0]], s[1..]);
      EscapeAttributeOfChar(s[0]);
      EscapeAttributeIsEscapeEach(s[1..]);
    }
  }

  /** With quotes escaped, the edit field holds the whole escaped text and shows exactly the task text. */
  lemma EscapeAttributeKeepsEditValue(s: string)
    ensures AttributeValue(EscapeAttribute(s) + "\"") == EscapeAttribute(s)
    ensures Unescape(AttributeValue(EscapeAttribute(s) + "\"")) == s
  {
    AttributeValueOfQuoted(EscapeAttribute(s));
    EscapeAttributeIsEscapeEach(s);
    UnescapeEscapeEach(s, true);
  }
}
