/** How generated commands are laid out as text, and the proof that lexing and
    parsing that text gives the commands back. */
module SieveLayout {
  import opened Text
  import opened SieveStrings
  import opened SieveEngine

  /** A stretch of script text that is one token, a gap, or a comment line. */
  datatype Piece =
    | W(k: Keyword) | T(k: Keyword) | N(n: int) | Q(s: string) | P(c: char)
    | Gap(s: string) | Note(s: string)

  function PieceText(p: Piece): string {
    match p
    case W(k) => Spell(k)
    case T(k) => ":" + Spell(k)
    case N(n) => Signed(n)
    case Q(s) => Quote(s)
    case P(c) => [c]
    case Gap(s) => s
    case Note(s) => "#" + s + "\n"
  }

  function TextOf(ps: seq<Piece>): string {
    if ps == [] then "" else PieceText(ps[0]) + TextOf(ps[1..])
  }

  predicate IsToken(p: Piece) { !p.Gap? && !p.Note? }

  function TokenOf(p: Piece): Token
    requires IsToken(p)
  {
    match p
    case W(k) => Word(k)
    case T(k) => Tag(k)
    case N(n) => Num(if n < 0 then 0 else n)
    case Q(s) => Str(s)
    case P(c) => Punct(c)
  }

  function OwnToken(p: Piece): seq<Token> { if IsToken(p) then [TokenOf(p)] else [] }

  function Tokens(ps: seq<Piece>): seq<Token> {
    if ps == [] then []
    else OwnToken(ps[0]) + Tokens(ps[1..])
  }

  predicate ValidPiece(p: Piece) {
    match p
    case W(k) => k != KUnknown
    case T(k) => k != KUnknown
    case P(c) => IsPunct(c)
    case Gap(s) => IsGap(s)
    case Note(s) => Harmless(s)
    case _ => true
  }

  /** Nothing but blanks and comments. */
  predicate LexesAway(s: string)
    decreases |s|
  {
    s == "" || (if s[0] == '#' then LexesAway(AfterLine(s[1..])) else IsBlank(s[0]) && LexesAway(s[1..]))
  }

  /** A comment's text may run over several lines as long as the later ones, which are
      script again, lex to nothing. */
  predicate Harmless(s: string) { '\n' !in s || LexesAway(AfterLine(s)) }

  predicate IsGap(s: string) { s != "" && forall i :: 0 <= i < |s| ==> IsBlank(s[i]) }

  predicate Sticky(p: Piece) { p.W? || p.T? || p.N? }
  predicate Joins(p: Piece, q: Piece) { Sticky(p) ==> !q.W? && !q.N? }

  ghost predicate WellLaid(ps: seq<Piece>) {
    && (forall i :: 0 <= i < |ps| ==> ValidPiece(ps[i]))
    && (forall i :: 0 <= i < |ps| - 1 ==> Joins(ps[i], ps[i + 1]))
  }

  ghost predicate NoNegatives(ps: seq<Piece>) {
    forall i :: 0 <= i < |ps| ==> !(ps[i].N? && ps[i].n < 0)
  }

  lemma {:induction false} NegativesConcat(a: seq<Piece>, b: seq<Piece>)
    ensures NoNegatives(a + b) <==> NoNegatives(a) && NoNegatives(b)
  {
    if NoNegatives(a + b) {
      forall i | 0 <= i < |a| ensures !(a[i].N? && a[i].n < 0) { assert (a + b)[i] == a[i]; }
      forall i | 0 <= i < |b| ensures !(b[i].N? && b[i].n < 0) { assert (a + b)[|a| + i] == b[i]; }
    }
  }

  lemma {:induction false} WellLaidConcat(a: seq<Piece>, b: seq<Piece>)
    requires WellLaid(a) && WellLaid(b)
    requires a != [] && b != [] ==> Joins(a[|a| - 1], b[0])
    ensures WellLaid(a + b)
    ensures NoNegatives(a + b) <==> NoNegatives(a) && NoNegatives(b)
  {
    NegativesConcat(a, b);
    forall i | 0 <= i < |a + b| - 1 ensures Joins((a + b)[i], (a + b)[i + 1]) {
      if i >= |a| { assert Joins(b[i - |a|], b[i - |a| + 1]); }
    }
  }

  lemma {:induction false} RenderConcat(a: seq<Piece>, b: seq<Piece>)
    ensures TextOf(a + b) == TextOf(a) + TextOf(b)
  {
    if a == [] {
      assert a + b == b;
    } else {
      assert (a + b)[1..] == a[1..] + b;
      RenderConcat(a[1..], b);
    }
  }

  lemma {:induction false} TokensConcat(a: seq<Piece>, b: seq<Piece>)
    ensures Tokens(a + b) == Tokens(a) + Tokens(b)
  {
    hide *;
    if a == [] {
      assert a + b == b;
      NoTokens();
    } else {
      var first, rest, more := OwnToken(a[0]), Tokens(a[1..]), Tokens(b);
      assert (a + b)[1..] == a[1..] + b;
      TokensFirst(a);
      TokensFirst(a + b);
      TokensConcat(a[1..], b);
      assert first + (rest + more) == (first + rest) + more;
    }
  }

  lemma {:induction false} NoTokens()
    ensures Tokens([]) == []
  {
  }

  lemma {:induction false} TokensFirst(ps: seq<Piece>)
    requires ps != []
    ensures Tokens(ps) == OwnToken(ps[0]) + Tokens(ps[1..])
  {
    hide TokenOf, IsToken;
  }

  lemma {:induction false} TokensConcat3(a: seq<Piece>, b: seq<Piece>, c: seq<Piece>)
    ensures Tokens(a + b + c) == Tokens(a) + (Tokens(b) + Tokens(c))
  {
    hide *;
    TokensConcat(a + b, c);
    TokensConcat(a, b);
  }

  lemma {:induction false} TokensConcat5(a: seq<Piece>, b: seq<Piece>, c: seq<Piece>, d: seq<Piece>, e: seq<Piece>)
    ensures Tokens(a + b + c + d + e) == Tokens(a) + (Tokens(b) + (Tokens(c) + (Tokens(d) + Tokens(e))))
  {
    hide *;
    TokensConcat3(a + b + c, d, e);
    TokensConcat3(a, b, c);
  }

  // ----- lexing a rendering

  lemma {:induction false} WordLenExact(w: string, rest: string)
    requires forall i :: 0 <= i < |w| ==> IsWordChar(w[i])
    requires rest == "" || !IsWordChar(rest[0])
    ensures WordLen(w + rest) == |w|
  {
    if w == "" {
      assert w + rest == rest;
    } else {
      assert (w + rest)[1..] == w[1..] + rest;
      WordLenExact(w[1..], rest);
    }
  }

  lemma {:induction false} DigitLenExact(w: string, rest: string)
    requires forall i :: 0 <= i < |w| ==> IsDigit(w[i])
    requires rest == "" || !IsDigit(rest[0])
    ensures DigitLen(w + rest) == |w|
  {
    if w == "" {
      assert w + rest == rest;
    } else {
      assert (w + rest)[1..] == w[1..] + rest;
      DigitLenExact(w[1..], rest);
    }
  }

  lemma {:induction false} AfterLineExact(s: string, rest: string)
    requires '\n' !in s
    ensures AfterLine(s + "\n" + rest) == rest
  {
    if s != "" {
      assert (s + "\n" + rest)[1..] == s[1..] + "\n" + rest;
      AfterLineExact(s[1..], rest);
    }
  }

  lemma {:induction false} LexGap(s: string, rest: string)
    requires forall i :: 0 <= i < |s| ==> IsBlank(s[i])
    ensures Lex(s + rest) == Lex(rest)
  {
    if s == "" {
      assert s + rest == rest;
    } else {
      assert (s + rest)[1..] == s[1..] + rest;
      LexGap(s[1..], rest);
    }
  }

  lemma {:induction false} LexAnyWord(w: string, rest: string)
    requires IsWord(w) && (rest == "" || !IsWordChar(rest[0]))
    ensures Lex(w + rest) == Push(Word(FindKeyword(w, KEYWORDS)), Lex(rest))
    ensures Lex(":" + w + rest) == Push(Tag(FindKeyword(w, KEYWORDS)), Lex(rest))
  {
    hide FindKeyword;
    WordLenExact(w, rest);
    var all, tagged := w + rest, ":" + w + rest;
    assert all[..|w|] == w && all[|w|..] == rest;
    assert all[0] == w[0] && !IsDigit(all[0]) && !IsBlank(all[0]);
    assert tagged[1..] == all;
  }

  lemma {:induction false} LexWord(k: Keyword, rest: string)
    requires k != KUnknown
    requires rest == "" || !IsWordChar(rest[0])
    ensures Lex(Spell(k) + rest) == Push(Word(k), Lex(rest))
    ensures Lex(":" + Spell(k) + rest) == Push(Tag(k), Lex(rest))
  {
    hide Spell, FindKeyword, Lex;
    SpellIsWord(k);
    KeywordRoundTrip(k);
    LexAnyWord(Spell(k), rest);
  }

  lemma {:induction false} LexNumber(n: nat, rest: string)
    requires rest == "" || !IsDigit(rest[0])
    ensures Lex(Decimal(n) + rest) == Push(Num(n), Lex(rest))
  {
    var w := Decimal(n);
    NumberOfDecimal(n);
    DigitLenExact(w, rest);
    assert (w + rest)[..|w|] == w && (w + rest)[|w|..] == rest;
    assert IsDigit(w[0]);
  }

  lemma {:induction false} LexQuotedString(s: string, rest: string)
    ensures Lex(Quote(s) + rest) == Push(Str(s), Lex(rest))
  {
    LexQuote(s, rest);
    assert (Quote(s) + rest)[1..] == QuotedBody(s) + "\"" + rest;
  }

  lemma {:induction false} AfterLineInside(s: string, rest: string)
    requires '\n' in s
    ensures AfterLine(s + rest) == AfterLine(s) + rest
  {
    assert (s + rest)[1..] == s[1..] + rest;
    if s[0] != '\n' { AfterLineInside(s[1..], rest); }
  }

  lemma {:induction false} NoLineAfter(s: string)
    requires '\n' !in s
    ensures AfterLine(s) == ""
  {
    if s != "" { NoLineAfter(s[1..]); }
  }

  lemma {:induction false} LexHash(s: string)
    ensures Lex("#" + s) == Lex(AfterLine(s))
  {
    assert ("#" + s)[1..] == s && !IsBlank('#');
  }

  lemma {:induction false} LexBlank(c: char, s: string)
    requires IsBlank(c)
    ensures Lex([c] + s) == Lex(s)
  {
    assert ([c] + s)[1..] == s;
  }

  lemma {:induction false} LexAway(s: string, rest: string)
    requires LexesAway(s)
    ensures Lex(s + "\n" + rest) == Lex(rest)
    decreases |s|
  {
    hide Lex;
    if s == "" {
      assert s + "\n" + rest == ['\n'] + rest;
      LexBlank('\n', rest);
    } else if s[0] == '#' {
      var t := s[1..];
      assert s + "\n" + rest == "#" + (t + "\n" + rest) && t + "\n" + rest == t + ("\n" + rest);
      LexHash(t + "\n" + rest);
      if '\n' in t {
        AfterLineInside(t, "\n" + rest);
        assert AfterLine(t) + ("\n" + rest) == AfterLine(t) + "\n" + rest;
        LexAway(AfterLine(t), rest);
      } else {
        AfterLineExact(t, rest);
      }
    } else {
      assert s + "\n" + rest == [s[0]] + (s[1..] + "\n" + rest);
      LexBlank(s[0], s[1..] + "\n" + rest);
      LexAway(s[1..], rest);
    }
  }

  lemma {:induction false} LexNote(s: string, rest: string)
    requires Harmless(s)
    ensures Lex("#" + s + "\n" + rest) == Lex(rest)
  {
    hide Lex, LexesAway;
    assert "#" + s + "\n" + rest == "#" + (s + "\n" + rest) && s + "\n" + rest == s + ("\n" + rest);
    LexHash(s + "\n" + rest);
    if '\n' in s {
      AfterLineInside(s, "\n" + rest);
      assert AfterLine(s) + ("\n" + rest) == AfterLine(s) + "\n" + rest;
      LexAway(AfterLine(s), rest);
    } else {
      AfterLineExact(s, rest);
    }
  }

  /** A text that lexes to no token is blanks and comments. */
  lemma {:induction false} OnlyAway(s: string)
    requires Lex(s) == Some([])
    ensures LexesAway(s)
    decreases |s|
  {
    if s != "" && (s[0] == '#' || IsBlank(s[0])) { OnlyAway(if s[0] == '#' then AfterLine(s[1..]) else s[1..]); }
  }

  lemma {:induction false} AwayBeforeLine(s: string)
    requires LexesAway(s + "\n")
    ensures LexesAway(s)
    decreases |s|
  {
    if s != "" {
      assert (s + "\n")[1..] == s[1..] + "\n";
      if s[0] != '#' {
        AwayBeforeLine(s[1..]);
      } else if '\n' in s[1..] {
        AfterLineInside(s[1..], "\n");
        AwayBeforeLine(AfterLine(s[1..]));
      } else {
        NoLineAfter(s[1..]);
      }
    }
  }

  /** The comment written for a rule is skipped, whatever follows it, if and only if
      every line of its text after the first is blank or a comment itself; the source
      writes the rule's name there unchecked. */
  lemma {:induction false} NoteIgnoredIff(s: string)
    ensures (forall rest :: Lex("#" + s + "\n" + rest) == Lex(rest)) <==> Harmless(s)
  {
    hide Lex, LexesAway;
    if Harmless(s) {
      forall rest ensures Lex("#" + s + "\n" + rest) == Lex(rest) { LexNote(s, rest); }
    } else if forall rest :: Lex("#" + s + "\n" + rest) == Lex(rest) {
      assert Lex("#" + s + "\n" + "") == Lex("");
      assert "#" + s + "\n" + "" == "#" + (s + "\n");
      LexNothing();
      LexHash(s + "\n");
      AfterLineInside(s, "\n");
      OnlyAway(AfterLine(s) + "\n");
      AwayBeforeLine(AfterLine(s));
      assert false;
    }
  }

  lemma {:induction false} LexNothing()
    ensures Lex("") == Some([])
  {
  }

  lemma {:induction false} LexPunct(c: char, rest: string)
    requires IsPunct(c)
    ensures Lex([c] + rest) == Push(Punct(c), Lex(rest))
  {
    assert ([c] + rest)[1..] == rest;
    assert c in "{}()[],;";
  }

  /** A minus sign starts no token: Sieve numbers are unsigned. */
  lemma {:induction false} LexMinus(rest: string)
    ensures Lex("-" + rest) == None
  {
    assert ("-" + rest)[0] == '-';
  }

  lemma {:induction false} RenderStart(ps: seq<Piece>, prev: Piece)
    requires WellLaid(ps) && Sticky(prev) && (ps != [] ==> Joins(prev, ps[0]))
    ensures TextOf(ps) == "" || !IsWordChar(TextOf(ps)[0])
  {
    if ps != [] { assert ValidPiece(ps[0]); }
  }

  lemma {:induction false} LexEmpty()
    ensures Lex("") == Some([])
  {
  }

  /** A well-laid rendering lexes to its tokens; a negative number is refused. */
  lemma {:induction false} LexRender(ps: seq<Piece>)
    requires WellLaid(ps)
    ensures Lex(TextOf(ps)) == if NoNegatives(ps) then Some(Tokens(ps)) else None
  {
    hide PieceText;
    if ps == [] {
      LexEmpty();
    } else {
      hide Lex;
      var p, rest := ps[0], ps[1..];
      assert ValidPiece(p);
      assert ps == [p] + rest;
      assert WellLaid(rest) by {
        forall i | 0 <= i < |rest| - 1 ensures Joins(rest[i], rest[i + 1]) {
          assert Joins(ps[i + 1], ps[i + 2]);
        }
      }
      assert NoNegatives(ps) <==> !(p.N? && p.n < 0) && NoNegatives(rest) by {
        if NoNegatives(ps) {
          forall i | 0 <= i < |rest| ensures !(rest[i].N? && rest[i].n < 0) { assert rest[i] == ps[i + 1]; }
        }
      }
      LexRender(rest);
      if rest != [] { assert Joins(ps[0], ps[1]); }
      LexPiece(p, rest);
      assert [] + Tokens(rest) == Tokens(rest);
    }
  }

  lemma {:induction false} LexPiece(p: Piece, rest: seq<Piece>)
    requires ValidPiece(p) && WellLaid(rest) && (rest != [] ==> Joins(p, rest[0]))
    ensures Lex(PieceText(p) + TextOf(rest)) ==
            if p.N? && p.n < 0 then None
            else if IsToken(p) then Push(TokenOf(p), Lex(TextOf(rest)))
            else Lex(TextOf(rest))
  {
    hide Lex, Spell, Quote;
    var r := TextOf(rest);
    if Sticky(p) { RenderStart(rest, p); }
    match p
    case W(k) => LexWord(k, r);
    case T(k) => LexWord(k, r);
    case N(n) => if n >= 0 { LexNumber(n, r); } else { LexMinus(Decimal(-n) + r); assert Signed(n) + r == "-" + (Decimal(-n) + r); }
    case Q(s) => LexQuotedString(s, r);
    case P(c) => LexPunct(c, r);
    case Gap(s) => LexGap(s, r);
    case Note(s) => LexNote(s, r);
  }

  // ----- layout of tests and commands

  /** Pieces with one space between each two. */
  function Spaced(ps: seq<Piece>): seq<Piece> {
    if |ps| <= 1 then ps else [ps[0], Gap(" ")] + Spaced(ps[1..])
  }

  function TokenSeq(ps: seq<Piece>): seq<Token>
    requires forall i :: 0 <= i < |ps| ==> IsToken(ps[i])
  {
    seq(|ps|, i requires 0 <= i < |ps| => TokenOf(ps[i]))
  }

  lemma {:induction false} SpacedTokens(ps: seq<Piece>)
    requires forall i :: 0 <= i < |ps| ==> IsToken(ps[i])
    ensures Tokens(Spaced(ps)) == TokenSeq(ps)
  {
    if |ps| == 1 {
      assert ps == [ps[0]];
      RenderOne(ps[0]);
    } else if |ps| > 1 {
      var rest := ps[1..];
      SpacedTokens(rest);
      TokensCons(ps[0], [Gap(" ")] + Spaced(rest));
      TokensCons(Gap(" "), Spaced(rest));
      assert Spaced(ps) == [ps[0]] + ([Gap(" ")] + Spaced(rest));
      assert TokenSeq(ps) == [TokenOf(ps[0])] + TokenSeq(rest);
    }
  }

  lemma {:induction false} TokensCons(p: Piece, ps: seq<Piece>)
    ensures Tokens([p] + ps) == (if IsToken(p) then [TokenOf(p)] else []) + Tokens(ps)
  {
    assert ([p] + ps)[1..] == ps;
  }

  lemma {:induction false} RenderCons(p: Piece, ps: seq<Piece>)
    ensures TextOf([p] + ps) == PieceText(p) + TextOf(ps)
  {
    assert ([p] + ps)[1..] == ps;
  }

  lemma {:induction false} OneLaid(p: Piece)
    requires ValidPiece(p)
    ensures WellLaid([p]) && (NoNegatives([p]) <==> !(p.N? && p.n < 0))
  {
    assert [p][0] == p;
  }

  lemma {:induction false} SpacedLaid(ps: seq<Piece>)
    requires ps != [] && forall i :: 0 <= i < |ps| ==> ValidPiece(ps[i])
    ensures WellLaid(Spaced(ps)) && Spaced(ps) != []
    ensures Spaced(ps)[0] == ps[0] && Spaced(ps)[|Spaced(ps)| - 1] == ps[|ps| - 1]
    ensures NoNegatives(Spaced(ps)) <==> NoNegatives(ps)
  {
    OneLaid(ps[0]);
    if |ps| == 1 {
      assert ps == [ps[0]];
    } else {
      var rest := ps[1..];
      SpacedLaid(rest);
      OneLaid(Gap(" "));
      hide WellLaid, NoNegatives;
      WellLaidConcat([Gap(" ")], Spaced(rest));
      WellLaidConcat([ps[0]], [Gap(" ")] + Spaced(rest));
      assert Spaced(ps) == [ps[0]] + ([Gap(" ")] + Spaced(rest));
      NegativesConcat([ps[0]], rest);
      assert ps == [ps[0]] + rest;
    }
  }

  lemma {:induction false} RenderSpaced(p: Piece, ps: seq<Piece>)
    requires ps != []
    ensures TextOf(Spaced([p] + ps)) == PieceText(p) + " " + TextOf(Spaced(ps))
  {
    assert ([p] + ps)[1..] == ps;
    var all := [p, Gap(" ")] + Spaced(ps);
    assert all[1..] == [Gap(" ")] + Spaced(ps) && all[1..][1..] == Spaced(ps);
  }

  lemma {:induction false} RenderOne(p: Piece)
    ensures TextOf([p]) == PieceText(p) && TextOf(Spaced([p])) == PieceText(p)
    ensures Tokens([p]) == if IsToken(p) then [TokenOf(p)] else []
  {
    assert [p][1..] == [];
  }

  function MatchTag(how: HeaderMatch): Keyword {
    match how case HIs => KIs case HContains => KContains case HMatches => KMatches
  }

  const TEST_SEP := "\n        "

  /** The words of a test that holds no other test. */
  function BasicPieces(t: Test): (ps: seq<Piece>)
    requires !t.Not? && !t.AllOf? && !t.AnyOf?
    ensures forall i :: 0 <= i < |ps| ==> IsToken(ps[i]) && ValidPiece(ps[i])
    ensures ps != []
  {
    match t
    case Header(how, name, key) => [W(KHeader), T(MatchTag(how)), Q(name), Q(key)]
    case Numeric(greater, name, key) =>
      [W(KHeader), T(KValue), Q(if greater then "gt" else "lt"), T(KComparator),
       Q("i;ascii-numeric"), Q(name), Q(key)]
    case BodyText(matches, key) => [W(KBody), T(KText), T(if matches then KMatches else KContains), Q(key)]
    case Size(over, limit) => [W(KSize), T(if over then KOver else KUnder), N(limit)]
  }

  function TestPieces(t: Test): seq<Piece> {
    match t
    case Not(u) => [W(KNot), Gap(" ")] + TestPieces(u)
    case AllOf(ts) => JunctionOpen(KAllOf) + ListPieces(ts) + JUNCTION_CLOSE
    case AnyOf(ts) => JunctionOpen(KAnyOf) + ListPieces(ts) + JUNCTION_CLOSE
    case _ => Spaced(BasicPieces(t))
  }

  function ListPieces(ts: seq<Test>): seq<Piece> {
    if ts == [] then []
    else if |ts| == 1 then TestPieces(ts[0])
    else TestPieces(ts[0]) + COMMA + ListPieces(ts[1..])
  }

  ghost predicate ProperTest(t: Test) {
    match t
    case Not(u) => ProperTest(u)
    case AllOf(ts) => ts != [] && forall u :: u in ts ==> ProperTest(u)
    case AnyOf(ts) => ts != [] && forall u :: u in ts ==> ProperTest(u)
    case _ => true
  }

  /** No size limit in the test is negative. */
  ghost predicate SizesNonNegative(t: Test) {
    match t
    case Size(_, limit) => limit >= 0
    case Not(u) => SizesNonNegative(u)
    case AllOf(ts) => forall u :: u in ts ==> SizesNonNegative(u)
    case AnyOf(ts) => forall u :: u in ts ==> SizesNonNegative(u)
    case _ => true
  }

  ghost predicate Laid(ps: seq<Piece>, nonNegative: bool) {
    && WellLaid(ps) && ps != []
    && (NoNegatives(ps) <==> nonNegative)
    && ps[0].W? && !ps[|ps| - 1].W? && !ps[|ps| - 1].T?
  }

  lemma {:induction false} LaidBetween(open: seq<Piece>, mid: seq<Piece>, close: seq<Piece>)
    requires WellLaid(open) && WellLaid(mid) && WellLaid(close)
    requires open != [] && mid != [] && close != []
    requires Joins(open[|open| - 1], mid[0]) && Joins(mid[|mid| - 1], close[0])
    ensures WellLaid(open + mid + close)
    ensures NoNegatives(open + mid + close) <==> NoNegatives(open) && NoNegatives(mid) && NoNegatives(close)
    ensures Tokens(open + mid + close) == Tokens(open) + Tokens(mid) + Tokens(close)
    ensures TextOf(open + mid + close) == TextOf(open) + TextOf(mid) + TextOf(close)
  {
    WellLaidConcat(open, mid);
    WellLaidConcat(open + mid, close);
    TokensConcat(open, mid);
    TokensConcat(open + mid, close);
    RenderConcat(open, mid);
    RenderConcat(open + mid, close);
  }

  function JunctionOpen(k: Keyword): seq<Piece> { [W(k), Gap(" "), P('('), Gap(TEST_SEP)] }
  const JUNCTION_CLOSE := [Gap("\n    "), P(')')]
  const COMMA := [P(','), Gap(TEST_SEP)]

  lemma {:induction false} JunctionLaid(k: Keyword)
    requires k != KUnknown
    ensures WellLaid(JunctionOpen(k)) && NoNegatives(JunctionOpen(k))
    ensures WellLaid(JUNCTION_CLOSE) && NoNegatives(JUNCTION_CLOSE)
    ensures WellLaid(COMMA) && NoNegatives(COMMA)
  {
    assert IsGap(" ") && IsGap(TEST_SEP) && IsGap("\n    ");
    assert IsPunct(',') && IsPunct('(') && IsPunct(')');
    hide IsGap, IsPunct;
  }

  lemma {:induction false} JunctionTokens(k: Keyword)
    requires k != KUnknown
    ensures Tokens(JunctionOpen(k)) == [Word(k), Punct('(')]
    ensures Tokens(JUNCTION_CLOSE) == [Punct(')')]
    ensures Tokens(COMMA) == [Punct(',')]
  {
    hide Tokens;
    TwoTokens(W(k), Gap(" "));
    TwoTokens(P('('), Gap(TEST_SEP));
    TokensConcat([W(k), Gap(" ")], [P('('), Gap(TEST_SEP)]);
    assert JunctionOpen(k) == [W(k), Gap(" ")] + [P('('), Gap(TEST_SEP)];
    TwoTokens(Gap("\n    "), P(')'));
    TwoTokens(P(','), Gap(TEST_SEP));
  }

  lemma {:induction false} TwoTokens(p: Piece, q: Piece)
    ensures Tokens([p, q]) == Tokens([p]) + Tokens([q])
    ensures Tokens([p]) == if IsToken(p) then [TokenOf(p)] else []
    ensures Tokens([q]) == if IsToken(q) then [TokenOf(q)] else []
  {
    TokensConcat([p], [q]);
    assert [p, q] == [p] + [q];
    OneToken(p);
    OneToken(q);
  }

  lemma {:induction false} OneToken(p: Piece)
    ensures Tokens([p]) == if IsToken(p) then [TokenOf(p)] else []
  {
    assert [p][1..] == [];
  }

  lemma {:induction false} TestLaid(t: Test)
    requires ProperTest(t)
    ensures Laid(TestPieces(t), SizesNonNegative(t))
    decreases t, 0
  {
    hide Tokens, TextOf, WellLaid, NoNegatives, ListPieces;
    match t
    case Not(u) =>
      TestLaid(u);
      NotOpenLaid();
      WellLaidConcat([W(KNot), Gap(" ")], TestPieces(u));
    case AllOf(ts) =>
      ListLaid(ts);
      JunctionLaid(KAllOf);
      LaidBetween(JunctionOpen(KAllOf), ListPieces(ts), JUNCTION_CLOSE);
    case AnyOf(ts) =>
      ListLaid(ts);
      JunctionLaid(KAnyOf);
      LaidBetween(JunctionOpen(KAnyOf), ListPieces(ts), JUNCTION_CLOSE);
    case _ =>
      BasicLaid(t);
  }

  lemma {:induction false} BasicLaid(t: Test)
    requires !t.Not? && !t.AllOf? && !t.AnyOf?
    ensures Laid(Spaced(BasicPieces(t)), SizesNonNegative(t))
  {
    var ps := BasicPieces(t);
    hide Spaced, WellLaid;
    SpacedLaid(ps);
    if t.Size? && t.limit < 0 { assert ps[2].N? && ps[2].n < 0; }
  }

  lemma {:induction false} NotOpenLaid()
    ensures WellLaid([W(KNot), Gap(" ")]) && NoNegatives([W(KNot), Gap(" ")])
  {
    assert IsGap(" ");
  }

  lemma {:induction false} ListLaid(ts: seq<Test>)
    requires ts != [] && forall u :: u in ts ==> ProperTest(u)
    ensures Laid(ListPieces(ts), forall u :: u in ts ==> SizesNonNegative(u))
    decreases ts, 1
  {
    hide Tokens, TextOf, TestPieces, SizesNonNegative, ProperTest, WellLaid, NoNegatives;
    TestLaid(ts[0]);
    if |ts| > 1 {
      ListLaid(ts[1..]);
      JunctionLaid(KAllOf);
      LaidBetween(TestPieces(ts[0]), COMMA, ListPieces(ts[1..]));
      assert (forall u :: u in ts ==> SizesNonNegative(u))
          <==> SizesNonNegative(ts[0]) && forall u :: u in ts[1..] ==> SizesNonNegative(u) by {
        assert ts == [ts[0]] + ts[1..];
      }
    } else {
      assert ts == [ts[0]];
    }
  }

  /** Parsing the words of a test before any other tokens gives the test back. */
  lemma {:induction false} ParseTestBack(t: Test, rest: seq<Token>)
    requires ProperTest(t) && SizesNonNegative(t)
    ensures ParseTest(Tokens(TestPieces(t)) + rest) == Some((t, rest))
    decreases t, 0
  {
    match t
    case Not(u) => ParseTestBack(u, rest); ParseNotBack(u, rest);
    case AllOf(ts) => ParseTestsBack(ts, rest); ParseJunctionBack(KAllOf, ts, rest);
    case AnyOf(ts) => ParseTestsBack(ts, rest); ParseJunctionBack(KAnyOf, ts, rest);
    case _ => ParseBasicBack(t, rest);
  }

  lemma {:induction false} ParseNotBack(u: Test, rest: seq<Token>)
    requires ParseTest(Tokens(TestPieces(u)) + rest) == Some((u, rest))
    ensures ParseTest(Tokens(TestPieces(Not(u))) + rest) == Some((Not(u), rest))
  {
    hide *;
    NotTokens(u);
    var mid := Tokens(TestPieces(u));
    assert Tokens(TestPieces(Not(u))) + rest == [Word(KNot)] + (mid + rest);
    ParseAfterNot(mid + rest, u, rest);
  }

  lemma {:induction false} NotTokens(u: Test)
    ensures Tokens(TestPieces(Not(u))) == [Word(KNot)] + Tokens(TestPieces(u))
  {
    var inner := TestPieces(u);
    assert TestPieces(Not(u)) == [W(KNot), Gap(" ")] + inner;
    hide Tokens, TestPieces;
    TokensConcat([W(KNot), Gap(" ")], inner);
    TwoTokens(W(KNot), Gap(" "));
  }

  lemma {:induction false} ParseAfterNot(inner: seq<Token>, u: Test, rest: seq<Token>)
    requires ParseTest(inner) == Some((u, rest))
    ensures ParseTest([Word(KNot)] + inner) == Some((Not(u), rest))
  {
    hide ParseBasic, ParseTests;
    assert ([Word(KNot)] + inner)[1..] == inner;
  }

  lemma {:induction false} ParseBasicBack(t: Test, rest: seq<Token>)
    requires !t.Not? && !t.AllOf? && !t.AnyOf? && SizesNonNegative(t)
    ensures ParseTest(Tokens(TestPieces(t)) + rest) == Some((t, rest))
  {
    var ps := BasicPieces(t);
    SpacedTokens(ps);
    assert TestPieces(t) == Spaced(ps);
    hide Tokens, Spaced, TestPieces, ParseTests, ParseTest;
    ParseBasicWords(t, rest);
    ParseTestIsBasic(TokenSeq(ps) + rest);
  }

  lemma {:induction false} ParseBasicWords(t: Test, rest: seq<Token>)
    requires !t.Not? && !t.AllOf? && !t.AnyOf? && SizesNonNegative(t)
    ensures ParseBasic(TokenSeq(BasicPieces(t)) + rest) == Some((t, rest))
  {
    hide ParseHeader, ParseBody, ParseSize;
    var toks := TokenSeq(BasicPieces(t));
    ParseWordsBack(t, rest);
    var words := toks[1..] + rest;
    assert toks + rest == [toks[0]] + words;
    assert ([toks[0]] + words)[1..] == words;
  }

  lemma {:induction false} ParseTestIsBasic(ts: seq<Token>)
    requires ts != [] && ts[0].Word? && ts[0].k in {KHeader, KBody, KSize}
    ensures ParseTest(ts) == ParseBasic(ts)
  {
    hide ParseBasic, ParseTests;
  }

  lemma {:induction false} ParseWordsBack(t: Test, rest: seq<Token>)
    requires !t.Not? && !t.AllOf? && !t.AnyOf? && SizesNonNegative(t)
    ensures var words := TokenSeq(BasicPieces(t))[1..] + rest;
            match t
            case BodyText(_, _) => ParseBody(words) == Some((t, rest))
            case Size(_, _) => ParseSize(words) == Some((t, rest))
            case _ => ParseHeader(words) == Some((t, rest))
  {
    var ps := BasicPieces(t);
    var ts := TokenSeq(ps)[1..] + rest;
    assert ts[|ps| - 1..] == rest;
    if t.Numeric? { assert "gt"[0] != "lt"[0]; }
  }

  /** A junction parses back once its list of tests does. */
  lemma {:induction false} ParseJunctionBack(k: Keyword, ts: seq<Test>, rest: seq<Token>)
    requires k == KAllOf || k == KAnyOf
    requires ParseTests(Tokens(ListPieces(ts)) + [Punct(')')] + rest) == Some((ts, rest))
    ensures ParseTest(Tokens(JunctionOpen(k) + ListPieces(ts) + JUNCTION_CLOSE) + rest)
            == Some((if k == KAllOf then AllOf(ts) else AnyOf(ts), rest))
  {
    hide Tokens, ListPieces, ParseTests, ParseBasic, JunctionOpen;
    JunctionTokens(k);
    TokensConcat(JunctionOpen(k), ListPieces(ts));
    TokensConcat(JunctionOpen(k) + ListPieces(ts), JUNCTION_CLOSE);
    var all := Tokens(JunctionOpen(k) + ListPieces(ts) + JUNCTION_CLOSE) + rest;
    var mid := Tokens(ListPieces(ts));
    assert all == [Word(k), Punct('(')] + (mid + [Punct(')')] + rest);
    ParseAfterOpen(k, mid + [Punct(')')] + rest, ts, rest);
  }

  lemma {:induction false} ParseAfterOpen(k: Keyword, inner: seq<Token>, ts: seq<Test>, rest: seq<Token>)
    requires k == KAllOf || k == KAnyOf
    requires ParseTests(inner) == Some((ts, rest))
    ensures ParseTest([Word(k), Punct('(')] + inner) == Some((if k == KAllOf then AllOf(ts) else AnyOf(ts), rest))
  {
    hide ParseBasic, ParseTests;
    assert ([Word(k), Punct('(')] + inner)[2..] == inner;
  }

  lemma {:induction false} ParseTestsBack(ts: seq<Test>, rest: seq<Token>)
    requires ts != [] && forall u :: u in ts ==> ProperTest(u) && SizesNonNegative(u)
    ensures ParseTests(Tokens(ListPieces(ts)) + [Punct(')')] + rest) == Some((ts, rest))
    decreases ts, 2
  {
    hide ProperTest, SizesNonNegative, TestPieces, ParseTest, Tokens;
    var all := Tokens(ListPieces(ts)) + [Punct(')')] + rest;
    var first := Tokens(TestPieces(ts[0]));
    if |ts| == 1 {
      assert all == first + ([Punct(')')] + rest);
      ParseTestBack(ts[0], [Punct(')')] + rest);
      ParseLast(all, ts[0], rest);
      assert ts == [ts[0]];
    } else {
      var more := Tokens(ListPieces(ts[1..])) + [Punct(')')] + rest;
      TokensConcat(TestPieces(ts[0]), COMMA);
      TokensConcat(TestPieces(ts[0]) + COMMA, ListPieces(ts[1..]));
      JunctionTokens(KAllOf);
      assert all == first + ([Punct(',')] + more);
      ParseTestBack(ts[0], [Punct(',')] + more);
      ParseTestsBack(ts[1..], rest);
      ParseNext(all, ts[0], more, ts[1..], rest);
      assert ts == [ts[0]] + ts[1..];
    }
  }

  lemma {:induction false} ParseLast(all: seq<Token>, t: Test, rest: seq<Token>)
    requires ParseTest(all) == Some((t, [Punct(')')] + rest))
    ensures ParseTests(all) == Some(([t], rest))
  {
    hide ParseTest;
    assert ([Punct(')')] + rest)[1..] == rest;
  }

  lemma {:induction false} ParseNext(all: seq<Token>, t: Test, more: seq<Token>, ts: seq<Test>, rest: seq<Token>)
    requires ParseTest(all) == Some((t, [Punct(',')] + more))
    requires ParseTests(more) == Some((ts, rest))
    ensures ParseTests(all) == Some(([t] + ts, rest))
  {
    hide ParseTest;
    assert ([Punct(',')] + more)[1..] == more;
  }
}
