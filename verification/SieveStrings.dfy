/** The string layer of the Sieve compiler: quoting, glob escaping, and what a
    Sieve engine does with the result (RFC 5228 sections 2.4.2 and 2.7.1). */
module SieveStrings {
  import opened Text

  // ----- what the compiler writes

  /** The characters between the quotes of `quote(value)`. */
  function QuotedBody(value: string): string {
    Replace(Replace(value, '\\', "\\\\"), '"', "\\\"")
  }

  function Quote(value: string): string { "\"" + QuotedBody(value) + "\"" }

  function EscapeGlob(value: string): string {
    Replace(Replace(Replace(value, '\\', "\\\\"), '*', "\\*"), '?', "\\?")
  }

  /** The two comment lines every generated script opens with. */
  const BANNER_1 := "Generated by Lightr." + " Do not edit --" + " changes are"
  const BANNER_2 := "overwritten whenever" + " filter rules change."

  lemma {:induction false} BannerOneLine()
    ensures '\n' !in BANNER_1 && '\n' !in BANNER_2
  {
    assert '\n' !in "Generated by Lightr." && '\n' !in " Do not edit --" && '\n' !in " changes are";
    assert '\n' !in "overwritten whenever" && '\n' !in " filter rules change.";
  }

  // ----- what the engine reads

  /** Reads a quoted string whose opening quote has been consumed: the value and
      the text after the closing quote, or None when it is unterminated. */
  function LexQuoted(s: string): (r: Option<(string, string)>)
    ensures r.Some? ==> |r.value.1| < |s|
  {
    if s == "" then None
    else if s[0] == '"' then Some(("", s[1..]))
    else
      var skip := if s[0] == '\\' then 1 else 0;
      if |s| <= skip then None
      else
        match LexQuoted(s[skip + 1..])
        case None => None
        case Some((value, rest)) => Some(([s[skip]] + value, rest))
  }

  /** `:matches`: `*` is any run of characters, `?` any one, and a backslash
      makes the next character stand for itself. */
  predicate GlobMatch(p: string, s: string)
    decreases |p| + |s|
  {
    if p == "" then s == ""
    else if p[0] == '*' then GlobMatch(p[1..], s) || (s != "" && GlobMatch(p, s[1..]))
    else if p[0] == '?' then s != "" && GlobMatch(p[1..], s[1..])
    else if p[0] == '\\' && |p| >= 2 then s != "" && s[0] == p[1] && GlobMatch(p[2..], s[1..])
    else s != "" && s[0] == p[0] && GlobMatch(p[1..], s[1..])
  }

  // ----- quoting round trip

  function QuotedChar(c: char): string {
    if c == '\\' then "\\\\" else if c == '"' then "\\\"" else [c]
  }

  lemma {:induction false} QuotedBodyCons(value: string)
    requires value != ""
    ensures QuotedBody(value) == QuotedChar(value[0]) + QuotedBody(value[1..])
  {
    var head := if value[0] == '\\' then "\\\\" else [value[0]];
    var rest := Replace(value[1..], '\\', "\\\\");
    ReplaceConcat(head, rest, '"', "\\\"");
    assert head[1..] == "" || head[1..][1..] == "";
    assert Replace(head, '"', "\\\"") == QuotedChar(value[0]);
  }

  /** Reading `quote(v)` before any text consumes exactly that literal and
      yields `v`. */
  lemma {:induction false} LexQuote(value: string, rest: string)
    ensures LexQuoted(QuotedBody(value) + "\"" + rest) == Some((value, rest))
  {
    if value == "" {
      assert QuotedBody(value) + "\"" + rest == "\"" + rest;
    } else {
      QuotedBodyCons(value);
      hide QuotedBody, QuotedChar, LexQuoted;
      LexQuote(value[1..], rest);
      var tail := QuotedBody(value[1..]) + "\"" + rest;
      assert QuotedBody(value) + "\"" + rest == QuotedChar(value[0]) + tail;
      LexQuotedChar(value[0], tail);
      assert [value[0]] + value[1..] == value;
    }
  }

  lemma {:induction false} LexQuotedChar(c: char, tail: string)
    ensures LexQuoted(QuotedChar(c) + tail)
         == match LexQuoted(tail) case None => None case Some((value, rest)) => Some(([c] + value, rest))
  {
    assert (QuotedChar(c) + tail)[|QuotedChar(c)|..] == tail;
  }

  // ----- glob escaping

  function EscapedChar(c: char): string {
    if c == '\\' || c == '*' || c == '?' then ['\\', c] else [c]
  }

  lemma {:induction false} EscapeGlobCons(value: string)
    requires value != ""
    ensures EscapeGlob(value) == EscapedChar(value[0]) + EscapeGlob(value[1..])
  {
    var h1 := if value[0] == '\\' then "\\\\" else [value[0]];
    var r1 := Replace(value[1..], '\\', "\\\\");
    var h2 := if value[0] == '*' then "\\*" else h1;
    var r2 := Replace(r1, '*', "\\*");
    assert h1[1..] == "" || h1[1..][1..] == "";
    assert Replace(h1, '*', "\\*") == h2;
    ReplaceConcat(h1, r1, '*', "\\*");
    assert h2[1..] == "" || h2[1..][1..] == "";
    assert Replace(h2, '?', "\\?") == EscapedChar(value[0]);
    ReplaceConcat(h2, r2, '?', "\\?");
  }

  /** An escaped fragment followed by any pattern matches exactly the strings
      that begin with the fragment and go on with something the pattern matches. */
  lemma {:induction false} EscapedPrefix(value: string, p: string, s: string)
    ensures GlobMatch(EscapeGlob(value) + p, s) <==> value <= s && GlobMatch(p, s[|value|..])
  {
    if value == "" {
      assert EscapeGlob(value) + p == p;
      assert s[0..] == s;
    } else {
      EscapeGlobCons(value);
      hide GlobMatch, EscapeGlob, EscapedChar;
      var e, tail := EscapedChar(value[0]), EscapeGlob(value[1..]) + p;
      assert EscapeGlob(value) + p == e + tail;
      EscapedMatches(value[0], tail, s);
      if s != "" {
        EscapedPrefix(value[1..], p, s[1..]);
        assert value <= s <==> value[0] == s[0] && value[1..] <= s[1..] by {
          if value[0] == s[0] && value[1..] <= s[1..] { assert value == [s[0]] + value[1..]; }
        }
        if |value| <= |s| { assert s[1..][|value| - 1..] == s[|value|..]; }
      }
    }
  }

  /** An escaped character matches itself and nothing else. */
  lemma {:induction false} EscapedMatches(c: char, tail: string, s: string)
    ensures GlobMatch(EscapedChar(c) + tail, s) <==> s != "" && s[0] == c && GlobMatch(tail, s[1..])
  {
    assert (EscapedChar(c) + tail)[|EscapedChar(c)|..] == tail;
  }

  lemma {:induction false} StarMatchesAll(s: string)
    ensures GlobMatch("*", s)
  {
    assert "*"[1..] == "";
    if s != "" { StarMatchesAll(s[1..]); }
  }

  /** A leading star matches exactly when the rest of the pattern matches some
      suffix. */
  lemma {:induction false} StarThen(p: string, s: string)
    ensures GlobMatch("*" + p, s) <==> exists k :: 0 <= k <= |s| && GlobMatch(p, s[k..])
  {
    var star := "*" + p;
    assert star[1..] == p;
    assert s[0..] == s;
    if s == "" {
    } else {
      StarThen(p, s[1..]);
      assert forall k :: 0 <= k <= |s[1..]| ==> s[1..][k..] == s[k + 1..];
      if GlobMatch(star, s) && !GlobMatch(p, s) {
        var k :| 0 <= k <= |s[1..]| && GlobMatch(p, s[1..][k..]);
        assert GlobMatch(p, s[k + 1..]);
      }
      if k :| 0 <= k <= |s| && GlobMatch(p, s[k..]) {
        if k > 0 { assert s[k..] == s[1..][k - 1..]; }
      }
    }
  }

  ghost predicate HasSuffix(s: string, v: string) { |v| <= |s| && s[|s| - |v|..] == v }

  /** The pattern emitted for `starts_with` matches exactly the values with that
      prefix, whatever characters the value holds. */
  lemma {:induction false} StartsWithGlob(value: string, s: string)
    ensures GlobMatch(EscapeGlob(value) + "*", s) <==> value <= s
  {
    EscapedPrefix(value, "*", s);
    if value <= s { StarMatchesAll(s[|value|..]); }
  }

  /** The pattern emitted for `ends_with` matches exactly the values with that
      suffix. */
  lemma {:induction false} EndsWithGlob(value: string, s: string)
    ensures GlobMatch("*" + EscapeGlob(value), s) <==> HasSuffix(s, value)
  {
    StarThen(EscapeGlob(value), s);
    forall k | 0 <= k <= |s|
      ensures GlobMatch(EscapeGlob(value), s[k..]) <==> s[k..] == value
    {
      EscapedPrefix(value, "", s[k..]);
      assert EscapeGlob(value) + "" == EscapeGlob(value);
    }
    if HasSuffix(s, value) {
      var k := |s| - |value|;
      assert 0 <= k <= |s| && GlobMatch(EscapeGlob(value), s[k..]);
    }
  }

  /** Case folding commutes with escaping, so `i;ascii-casemap` may fold the
      emitted pattern. */
  lemma {:induction false} LowerEscapeGlob(value: string)
    ensures Lower(EscapeGlob(value)) == EscapeGlob(Lower(value))
  {
    if value != "" {
      var c, rest := value[0], value[1..];
      LowerCons(value);
      calc {
        Lower(EscapeGlob(value));
        { EscapeGlobCons(value); }
        Lower(EscapedChar(c) + EscapeGlob(rest));
        { LowerConcat(EscapedChar(c), EscapeGlob(rest)); }
        Lower(EscapedChar(c)) + Lower(EscapeGlob(rest));
        { LowerEscapeGlob(rest); LowerEscapedChar(c); }
        EscapedChar(LowerChar(c)) + EscapeGlob(Lower(rest));
        { EscapeGlobCons(Lower(value)); assert Lower(value)[1..] == Lower(rest); }
        EscapeGlob(Lower(value));
      }
    }
  }

  lemma {:induction false} LowerEscapedChar(c: char)
    ensures Lower(EscapedChar(c)) == EscapedChar(LowerChar(c))
  {
  }
}
