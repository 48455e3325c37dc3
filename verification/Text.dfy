/** Plain string helpers shared by the models: ASCII case folding, ASCII white
    space, and the character-for-string replacement that Python's `str.replace`
    performs when the pattern is a single character. */
module Text {

  datatype Option<+T> = None | Some(value: T)

  predicate IsDigit(c: char) { '0' <= c <= '9' }

  predicate IsLetter(c: char) { 'a' <= c <= 'z' || 'A' <= c <= 'Z' || c == '_' }

  predicate IsSpace(c: char) { c == ' ' || 9 <= c as int <= 13 || 28 <= c as int <= 31 }

  /** The characters `str.splitlines` breaks lines at. */
  predicate IsBreak(c: char) {
    10 <= c as int <= 13 || 28 <= c as int <= 30 || c as int == 133 || c as int == 8232 || c as int == 8233
  }

  function LowerChar(c: char): char {
    if 'A' <= c <= 'Z' then (c as int + 32) as char else c
  }

  /** ASCII case folding: the only folding `i;ascii-casemap` performs. */
  function Lower(s: string): (r: string)
    ensures |r| == |s|
  {
    seq(|s|, i requires 0 <= i < |s| => LowerChar(s[i]))
  }

  function StripLeft(s: string): (r: string)
    ensures |r| <= |s| && r == s[|s| - |r|..]
    ensures r != "" ==> !IsSpace(r[0])
  {
    if s != "" && IsSpace(s[0]) then StripLeft(s[1..]) else s
  }

  function StripRight(s: string): (r: string)
    ensures r <= s
    ensures r != "" ==> !IsSpace(r[|r| - 1])
    ensures forall i :: |r| <= i < |s| ==> IsSpace(s[i])
  {
    if s != "" && IsSpace(s[|s| - 1]) then StripRight(s[..|s| - 1]) else s
  }

  /** `str.strip()` */
  function Strip(s: string): string { StripRight(StripLeft(s)) }

  predicate AllSpace(s: string) { forall i :: 0 <= i < |s| ==> IsSpace(s[i]) }

  lemma {:induction false} StripLeftMeans(s: string)
    ensures AllSpace(s[..|s| - |StripLeft(s)|])
  {
    if s != "" && IsSpace(s[0]) { StripLeftMeans(s[1..]); }
  }

  /** Stripping takes white space off both ends. */
  lemma {:induction false} StripMeans(s: string) returns (before: string, after: string)
    ensures s == before + Strip(s) + after && AllSpace(before) && AllSpace(after)
  {
    StripLeftMeans(s);
    hide StripLeft, StripRight, IsSpace;
    var left := StripLeft(s);
    before, after := s[..|s| - |left|], left[|Strip(s)|..];
    assert s == before + left && left == Strip(s) + after;
  }

  lemma {:induction false} StripLeftSpaces(before: string, s: string)
    requires AllSpace(before) && (s == "" || !IsSpace(s[0]))
    ensures StripLeft(before + s) == s
  {
    hide IsSpace;
    if before == "" {
      assert before + s == s;
    } else {
      assert (before + s)[1..] == before[1..] + s;
      StripLeftSpaces(before[1..], s);
    }
  }

  lemma {:induction false} StripRightSpaces(s: string, after: string)
    requires AllSpace(after) && s != "" && !IsSpace(s[|s| - 1])
    ensures StripRight(s + after) == s
  {
    hide IsSpace;
    if after == "" {
      assert s + after == s;
    } else {
      assert (s + after)[..|s + after| - 1] == s + after[..|after| - 1];
      StripRightSpaces(s, after[..|after| - 1]);
    }
  }

  lemma {:induction false} StripAround(before: string, core: string, after: string)
    requires AllSpace(before) && AllSpace(after) && core != "" && !IsSpace(core[0]) && !IsSpace(core[|core| - 1])
    ensures Strip(before + core + after) == core
  {
    hide IsSpace, AllSpace, StripLeft, StripRight;
    assert before + core + after == before + (core + after);
    StripLeftSpaces(before, core + after);
    StripRightSpaces(core, after);
  }

  /** What ends in no white space survives stripping the right of what it begins. */
  lemma {:induction false} StripRightKeeps(s: string, p: string)
    requires p <= s && p != "" && !IsSpace(p[|p| - 1])
    ensures p <= StripRight(s)
    ensures StripRight(s) == p <==> AllSpace(s[|p|..])
  {
    hide IsSpace;
    if s == p {
      assert s[|p|..] == "";
    } else if IsSpace(s[|s| - 1]) {
      var init := s[..|s| - 1];
      StripRightKeeps(init, p);
      assert s[|p|..] == init[|p|..] + [s[|s| - 1]];
    } else {
      assert s[|p|..][|s| - |p| - 1] == s[|s| - 1];
    }
  }

  /** `s.replace(c, t)` for a one-character pattern `c`. */
  function Replace(s: string, c: char, t: string): string {
    if s == "" then "" else (if s[0] == c then t else [s[0]]) + Replace(s[1..], c, t)
  }

  lemma {:induction false} ReplaceConcat(a: string, b: string, c: char, t: string)
    ensures Replace(a + b, c, t) == Replace(a, c, t) + Replace(b, c, t)
  {
    if a == "" {
      assert a + b == b;
    } else {
      assert (a + b)[1..] == a[1..] + b;
      ReplaceConcat(a[1..], b, c, t);
    }
  }

  lemma {:induction false} LowerConcat(a: string, b: string)
    ensures Lower(a + b) == Lower(a) + Lower(b)
  {
  }

  lemma {:induction false} LowerCons(s: string)
    requires s != ""
    ensures Lower(s) == [LowerChar(s[0])] + Lower(s[1..])
  {
  }

  lemma {:induction false} LowerIdempotent(s: string)
    ensures Lower(Lower(s)) == Lower(s)
  {
  }

  /** Decimal rendering of a natural number, as `str(n)` prints it. */
  function Decimal(n: nat): (r: string)
    ensures r != "" && forall i :: 0 <= i < |r| ==> IsDigit(r[i])
  {
    if n < 10 then [('0' as int + n) as char]
    else Decimal(n / 10) + [('0' as int + n % 10) as char]
  }

  /** `str(n)` */
  function Signed(n: int): string { if n < 0 then "-" + Decimal(-n) else Decimal(n) }

  /** The number a run of decimal digits stands for. */
  function Number(digits: string): nat
    requires forall i :: 0 <= i < |digits| ==> IsDigit(digits[i])
  {
    if digits == "" then 0
    else
      assert IsDigit(digits[|digits| - 1]);
      10 * Number(digits[..|digits| - 1]) + (digits[|digits| - 1] as int - '0' as int)
  }

  lemma {:induction false} NumberOfDecimal(n: nat)
    ensures Number(Decimal(n)) == n
  {
    if n >= 10 {
      NumberOfDecimal(n / 10);
      var last := [('0' as int + n % 10) as char];
      assert (Decimal(n / 10) + last)[..|Decimal(n / 10)|] == Decimal(n / 10);
    }
  }

  /** `sep.join(parts)` */
  function Join(sep: string, parts: seq<string>): string {
    if parts == [] then ""
    else if |parts| == 1 then parts[0]
    else parts[0] + sep + Join(sep, parts[1..])
  }

  lemma {:induction false} Associate<T>(a: seq<T>, b: seq<T>, c: seq<T>, d: seq<T>)
    ensures a + b + c + d == a + (b + c + d) && a + b + c + d == a + b + (c + d)
  {
  }

  // ----- lines

  /** The length of the first line, without its end. */
  function LineLen(s: string): (n: nat)
    ensures n <= |s| && forall i :: 0 <= i < n ==> !IsBreak(s[i])
    ensures n < |s| ==> IsBreak(s[n])
  {
    if s == "" || IsBreak(s[0]) then 0 else 1 + LineLen(s[1..])
  }

  function EndLen(s: string): (n: nat)
    ensures n <= |s| && (s != "" ==> n > 0)
  {
    if s == "" then 0 else if |s| >= 2 && s[0] == '\r' && s[1] == '\n' then 2 else 1
  }

  /** `text.splitlines()` */
  function SplitLines(text: string): (r: seq<string>)
    ensures forall line :: line in r ==> forall c :: c in line ==> !IsBreak(c)
    decreases |text|
  {
    if text == "" then []
    else
      var n := LineLen(text);
      [text[..n]] + SplitLines(text[n..][EndLen(text[n..])..])
  }

  /** The length of the first line with its end. */
  function LineEnd(text: string): (end: nat)
    ensures end <= |text| && (text != "" ==> end > 0)
  {
    LineLen(text) + EndLen(text[LineLen(text)..])
  }

  /** `text.splitlines(keepends=True)` */
  function KeepLines(text: string): seq<string>
    decreases |text|
  {
    if text == "" then []
    else
      var end := LineEnd(text);
      [text[..end]] + KeepLines(text[end..])
  }

  /** `"".join(lines)` */
  function Glue(lines: seq<string>): string {
    if lines == [] then "" else lines[0] + Glue(lines[1..])
  }

  lemma {:induction false} LineLenIs(s: string, n: nat)
    requires n < |s| && IsBreak(s[n]) && forall i :: 0 <= i < n ==> !IsBreak(s[i])
    ensures LineLen(s) == n
  {
    if n > 0 { LineLenIs(s[1..], n - 1); }
  }

  lemma {:induction false} SplitFirstLine(line: string, rest: string)
    requires forall c :: c in line ==> !IsBreak(c)
    ensures SplitLines(line + "\n" + rest) == [line] + SplitLines(rest)
  {
    var text := line + "\n" + rest;
    assert forall i :: 0 <= i < |line| ==> text[i] == line[i] && line[i] in line;
    LineLenIs(text, |line|);
    assert text[..|line|] == line;
    assert text[|line|..][0] == '\n' && text[|line|..][1..] == rest;
  }

  lemma {:induction false} KeepFirst(text: string)
    requires text != ""
    ensures LineEnd(text) > 0
    ensures KeepLines(text) == [text[..LineEnd(text)]] + KeepLines(text[LineEnd(text)..])
  {
    hide LineEnd;
  }

  lemma {:induction false} GlueCons(first: string, rest: seq<string>)
    ensures Glue([first] + rest) == first + Glue(rest)
  {
    assert ([first] + rest)[1..] == rest;
  }

  lemma {:induction false} GlueKeepLines(text: string)
    ensures Glue(KeepLines(text)) == text
    decreases |text|
  {
    if text == "" {
      assert KeepLines(text) == [];
    } else {
      var end := LineEnd(text);
      KeepFirst(text);
      hide *;
      var first, rest := text[..end], KeepLines(text[end..]);
      GlueKeepLines(text[end..]);
      GlueCons(first, rest);
      assert text[..end] + text[end..] == text;
    }
  }

  lemma {:induction false} GlueConcat(a: seq<string>, b: seq<string>)
    ensures Glue(a + b) == Glue(a) + Glue(b)
  {
    if a == [] {
      assert a + b == b;
    } else {
      assert (a + b)[1..] == a[1..] + b;
      GlueConcat(a[1..], b);
    }
  }

  // ----- choosing from a list

  /** `r` is the elements of `s` at these positions, in their order. */
  ghost predicate Picks<T(!new)>(s: seq<T>, at: seq<nat>, r: seq<T>) {
    && |at| == |r| && (forall k :: 0 <= k < |at| ==> at[k] < |s| && r[k] == s[at[k]])
    && (forall k, l :: 0 <= k < l < |at| ==> at[k] < at[l])
  }

  /** One more element, picked or not. */
  lemma {:induction false} PicksSnoc<T(!new)>(s: seq<T>, at: seq<nat>, r: seq<T>, x: T)
    requires Picks(s, at, r)
    ensures Picks(s + [x], at, r) && Picks(s + [x], at + [|s|], r + [x])
    ensures forall i: nat :: i in at + [|s|] <==> i in at || i == |s|
    ensures forall i: nat :: i in at ==> i < |s|
  {
  }
}
