/** The text the compiler emits is the layout of a script of commands. */
module SieveEmission {
  import opened Text
  import opened SieveStrings
  import opened SieveEngine
  import opened SieveLayout
  import opened SieveScript
  import opened SieveCompile

  // ----- one condition

  /** The test a condition is meant to become. */
  function TestOf(c: Condition, py: Conversions): Test
    requires CompileCondition(c, py).Ok?
  {
    match c.field
    case From => HeaderTestOf("From", c.op, c.value)
    case To => HeaderTestOf("To", c.op, c.value)
    case Cc => HeaderTestOf("Cc", c.op, c.value)
    case Subject => HeaderTestOf("Subject", c.op, c.value)
    case HeaderField => HeaderTestOf(c.header.value, c.op, c.value)
    case Body => BodyText(c.op == MatchesOp, c.value)
    case SizeField => Size(c.op == GreaterThan, py.asInt(c.value).value)
    case SpamScore => Numeric(c.op == GreaterThan, SPAM_SCORE, c.value)
    case Attachment =>
      var present := Header(HIs, HAS_ATTACHMENT, "yes");
      if WantsAttachment(c.value) then present else Not(present)
    case _ => Header(HContains, AUTH_RESULTS, AuthFragment(c.field, c.value))
  }

  function HeaderTestOf(name: string, op: Operator, value: string): (t: Test)
    ensures t.Header? && t.name == name
  {
    match op
    case Equals => Header(HIs, name, value)
    case ContainsOp => Header(HContains, name, value)
    case StartsWith => Header(HMatches, name, EscapeGlob(value) + "*")
    case EndsWith => Header(HMatches, name, "*" + EscapeGlob(value))
    case _ => Header(HMatches, name, value)
  }

  lemma {:induction false} FourWords(a: Piece, b: Piece, c: Piece, d: Piece)
    ensures TextOf(Spaced([a, b, c, d])) == PieceText(a) + " " + PieceText(b) + " " + PieceText(c) + " " + PieceText(d)
  {
    hide TextOf, Spaced, PieceText;
    assert [a, b, c, d] == [a] + [b, c, d] && [b, c, d] == [b] + [c, d] && [c, d] == [c] + [d];
    RenderSpaced(a, [b, c, d]);
    RenderSpaced(b, [c, d]);
    RenderSpaced(c, [d]);
    RenderOne(d);
  }

  lemma {:induction false} HeaderText(name: string, op: Operator, value: string)
    requires HeaderTest(name, op, value).Ok?
    ensures HeaderTest(name, op, value).value == TextOf(TestPieces(HeaderTestOf(name, op, value)))
  {
    var t := HeaderTestOf(name, op, value);
    HeaderShape(t.how, t.name, t.key);
    hide TextOf, TestPieces, Quote, EscapeGlob;
    HeaderStarts();
  }

  lemma {:induction false} HeaderStarts()
    ensures "header :" + "is" + " " == "header :is "
    ensures "header :" + "contains" + " " == "header :contains "
    ensures "header :" + "matches" + " " == "header :matches "
  {
  }

  lemma {:induction false} HeaderShape(how: HeaderMatch, name: string, key: string)
    ensures TextOf(TestPieces(Header(how, name, key))) ==
            "header :" + Spell(MatchTag(how)) + " " + Quote(name) + " " + Quote(key)
  {
    assert TestPieces(Header(how, name, key)) == Spaced([W(KHeader), T(MatchTag(how)), Q(name), Q(key)]);
    hide *;
    FourWords(W(KHeader), T(MatchTag(how)), Q(name), Q(key));
    PieceTexts(MatchTag(how), name);
    PieceTexts(MatchTag(how), key);
    HeaderGlue(Spell(MatchTag(how)), Quote(name), Quote(key));
  }

  lemma {:induction false} PieceTexts(k: Keyword, s: string)
    ensures PieceText(W(KHeader)) == "header" && PieceText(T(k)) == ":" + Spell(k) && PieceText(Q(s)) == Quote(s)
  {
    hide Quote;
  }

  lemma {:induction false} HeaderGlue(word: string, name: string, key: string)
    ensures "header" + " " + (":" + word) + " " + name + " " + key == "header :" + word + " " + name + " " + key
  {
    assert "header" + " " + ":" == "header :";
  }

  // Literal stretches of the emitted tests.

  lemma {:induction false} BodyWords()
    ensures ("body" + " " + (":" + "text") + " " + ":") == "body :text :"
    ensures "body :text :" + "matches" + " " == "body :text :matches "
    ensures "body :text :" + "contains" + " " == "body :text :contains "
  {
  }

  lemma {:induction false} SizeWords()
    ensures "size" + " " + (":" + "over") + " " == "size :over "
    ensures "size" + " " + (":" + "under") + " " == "size :under "
  {
  }

  lemma {:induction false} NumericWords()
    ensures "header" + " " + (":" + "value") + " " + "\"" == "header :value \""
    ensures "\"" + (" " + (":" + "comparator") + " ") + "\"" == "\" :comparator \""
    ensures "\" :comparator \"" + "i;ascii-numeric" + "\"" + " " == "\" :comparator \"i;ascii-numeric\" "
  {
  }

  lemma {:induction false} ThreeWords(a: Piece, b: Piece, c: Piece)
    ensures TextOf(Spaced([a, b, c])) == PieceText(a) + " " + PieceText(b) + " " + PieceText(c)
  {
    hide TextOf, Spaced, PieceText;
    assert [a, b, c] == [a] + [b, c] && [b, c] == [b] + [c];
    RenderSpaced(a, [b, c]);
    RenderSpaced(b, [c]);
    RenderOne(c);
  }

  lemma {:induction false} SevenWords(a: Piece, b: Piece, c: Piece, d: Piece, e: Piece, f: Piece, g: Piece)
    ensures TextOf(Spaced([a, b, c, d, e, f, g])) ==
            PieceText(a) + " " + PieceText(b) + " " + PieceText(c) + " " + PieceText(d) + " "
            + PieceText(e) + " " + PieceText(f) + " " + PieceText(g)
  {
    hide TextOf, Spaced, PieceText;
    assert [a, b, c, d, e, f, g] == [a] + ([b] + ([c] + [d, e, f, g]));
    RenderSpaced(a, [b] + ([c] + [d, e, f, g]));
    RenderSpaced(b, [c] + [d, e, f, g]);
    RenderSpaced(c, [d, e, f, g]);
    FourWords(d, e, f, g);
  }

  lemma {:induction false} NumericShape(greater: bool, name: string, key: string)
    ensures TextOf(TestPieces(Numeric(greater, name, key))) ==
            "header :value \"" + (if greater then "gt" else "lt") + "\" :comparator \"i;ascii-numeric\" "
            + Quote(name) + " " + Quote(key)
  {
    var op := if greater then "gt" else "lt";
    var a, b, c, d, e, f, g :=
      W(KHeader), T(KValue), Q(op), T(KComparator), Q("i;ascii-numeric"), Q(name), Q(key);
    assert TestPieces(Numeric(greater, name, key)) == Spaced([a, b, c, d, e, f, g]);
    NumericPieces(op);
    assert PieceText(f) == Quote(name) && PieceText(g) == Quote(key);
    hide *;
    SevenWords(a, b, c, d, e, f, g);
    NumericGlue(TextOf(TestPieces(Numeric(greater, name, key))), "header" + " " + (":" + "value") + " ",
                ":" + "comparator", "\"", op, "i;ascii-numeric", Quote(name), Quote(key));
    NumericWords();
  }

  lemma {:induction false} NumericPieces(op: string)
    requires op == "gt" || op == "lt"
    ensures PieceText(W(KHeader)) == "header" && PieceText(T(KValue)) == ":" + "value"
    ensures PieceText(T(KComparator)) == ":" + "comparator"
    ensures PieceText(Q(op)) == "\"" + op + "\""
    ensures PieceText(Q("i;ascii-numeric")) == "\"" + "i;ascii-numeric" + "\""
  {
    hide QuotedBody;
    PlainQuotes();
  }

  lemma {:induction false} NumericGlue(text: string, x: string, y: string, q: string, op: string, cmp: string,
                                       n: string, k: string)
    requires text == x + (q + op + q) + " " + y + " " + (q + cmp + q) + " " + n + " " + k
    ensures text == (x + q) + op + ((q + (" " + y + " ") + q) + cmp + q + " ") + n + " " + k
  {
  }

  /** Literals without a quote or backslash are quoted as they stand. */
  lemma {:induction false} QuotedPlain(s: string)
    requires '\\' !in s && '"' !in s
    ensures QuotedBody(s) == s
  {
    ReplaceAbsent(s, '\\', "\\\\");
    ReplaceAbsent(s, '"', "\\\"");
  }

  lemma {:induction false} ReplaceAbsent(s: string, c: char, t: string)
    requires c !in s
    ensures Replace(s, c, t) == s
  {
    if s != "" { ReplaceAbsent(s[1..], c, t); }
  }

  lemma {:induction false} PlainQuotes()
    ensures QuotedBody("gt") == "gt" && QuotedBody("lt") == "lt"
    ensures QuotedBody("i;ascii-numeric") == "i;ascii-numeric"
    ensures QuotedBody("yes") == "yes"
  {
    hide QuotedBody;
    QuotedPlain("gt");
    QuotedPlain("lt");
    QuotedPlain("i;ascii-numeric");
    QuotedPlain("yes");
  }

  lemma {:induction false} BodyShape(matches: bool, key: string)
    ensures TextOf(TestPieces(BodyText(matches, key))) ==
            (if matches then "body :text :matches " else "body :text :contains ") + Quote(key)
  {
    var m := if matches then KMatches else KContains;
    assert TestPieces(BodyText(matches, key)) == Spaced([W(KBody), T(KText), T(m), Q(key)]);
    hide *;
    FourWords(W(KBody), T(KText), T(m), Q(key));
    PieceTexts(m, key);
    BodyPieceTexts();
    BodyGlue(if matches then "matches" else "contains", Quote(key));
    BodyWords();
  }

  lemma {:induction false} BodyPieceTexts()
    ensures PieceText(W(KBody)) == "body" && PieceText(T(KText)) == ":" + "text"
    ensures Spell(KMatches) == "matches" && Spell(KContains) == "contains"
  {
  }

  lemma {:induction false} BodyGlue(word: string, q: string)
    ensures "body" + " " + (":" + "text") + " " + (":" + word) + " " + q
         == ("body" + " " + (":" + "text") + " " + ":") + word + " " + q
  {
  }

  lemma {:induction false} SizeShape(over: bool, n: int)
    ensures TextOf(TestPieces(Size(over, n))) == (if over then "size :over " else "size :under ") + Signed(n)
  {
    var k := if over then KOver else KUnder;
    ThreeWords(W(KSize), T(k), N(n));
    assert TestPieces(Size(over, n)) == Spaced([W(KSize), T(k), N(n)]);
    SizeWords();
    hide TextOf, TestPieces, Signed, Spaced;
  }

  lemma {:induction false} NotShape(t: Test)
    ensures TextOf(TestPieces(Not(t))) == "not " + TextOf(TestPieces(t))
  {
    var open, inner := [W(KNot), Gap(" ")], TestPieces(t);
    assert TestPieces(Not(t)) == open + inner;
    assert TextOf(open) == "not " by {
      assert open == [W(KNot)] + [Gap(" ")];
      RenderCons(W(KNot), [Gap(" ")]);
      RenderOne(Gap(" "));
    }
    hide TextOf, TestPieces;
    RenderConcat(open, inner);
    hide *;
  }

  /** The emitted text of a condition is the layout of its test, and what it
      requires is what the test uses. */
  lemma {:induction false} ConditionLaid(c: Condition, py: Conversions)
    requires CompileCondition(c, py).Ok?
    ensures CompileCondition(c, py).value.0 == TextOf(TestPieces(TestOf(c, py)))
    ensures CompileCondition(c, py).value.1 == TestNeeds(TestOf(c, py))
    ensures ProperTest(TestOf(c, py))
    ensures SizesNonNegative(TestOf(c, py)) <==> (c.field == SizeField ==> py.asInt(c.value).value >= 0)
  {
    hide TextOf, TestPieces, Quote, HeaderTest, Signed, EscapeGlob, HeaderTestOf;
    match c.field
    case From => HeaderText("From", c.op, c.value);
    case To => HeaderText("To", c.op, c.value);
    case Cc => HeaderText("Cc", c.op, c.value);
    case Subject => HeaderText("Subject", c.op, c.value);
    case HeaderField => HeaderText(c.header.value, c.op, c.value);
    case Body => BodyShape(c.op == MatchesOp, c.value);
    case SizeField => SizeShape(c.op == GreaterThan, py.asInt(c.value).value);
    case SpamScore => NumericShape(c.op == GreaterThan, SPAM_SCORE, c.value);
    case Attachment =>
      AttachmentShape();
      NotShape(Header(HIs, HAS_ATTACHMENT, "yes"));
    case _ => AuthShape(AuthFragment(c.field, c.value));
  }

  lemma {:induction false} AttachmentShape()
    ensures TextOf(TestPieces(Header(HIs, HAS_ATTACHMENT, "yes"))) ==
            "header :is " + Quote(HAS_ATTACHMENT) + " \"yes\""
  {
    HeaderShape(HIs, HAS_ATTACHMENT, "yes");
    PlainQuotes();
    hide TextOf, TestPieces, QuotedBody;
    assert "header :" + "is" + " " == "header :is ";
    assert " " + "\"" + "yes" + "\"" == " \"yes\"";
  }

  lemma {:induction false} AuthShape(fragment: string)
    ensures TextOf(TestPieces(Header(HContains, AUTH_RESULTS, fragment))) ==
            "header :contains " + Quote(AUTH_RESULTS) + " " + Quote(fragment)
  {
    HeaderShape(HContains, AUTH_RESULTS, fragment);
    hide TextOf, TestPieces, Quote;
    assert "header :" + "contains" + " " == "header :contains ";
  }

  // ----- one rule

  /** What `CompileTests` collects, condition by condition. */
  lemma {:induction false} TestsCompiled(cs: seq<Condition>, py: Conversions)
    requires CompileTests(cs, py).Ok?
    ensures |CompileTests(cs, py).value.0| == |cs|
    ensures forall i | 0 <= i < |cs| ::
              CompileCondition(cs[i], py).Ok? && CompileTests(cs, py).value.0[i] == CompileCondition(cs[i], py).value.0
    ensures forall e :: e in CompileTests(cs, py).value.1 <==>
              exists i :: 0 <= i < |cs| && CompileCondition(cs[i], py).Ok? && e in CompileCondition(cs[i], py).value.1
  {
    hide CompileCondition;
    if cs != [] { TestsCompiled(cs[..|cs| - 1], py); }
  }

  lemma {:induction false} ActionsCompiled(acts: seq<(Action, string)>)
    requires CompileActions(acts).Ok?
    ensures |CompileActions(acts).value.0| == |acts|
    ensures forall i | 0 <= i < |acts| ::
              CompileAction(acts[i].0, acts[i].1).Ok? &&
              CompileActions(acts).value.0[i] == "    " + CompileAction(acts[i].0, acts[i].1).value.0
    ensures forall e :: e in CompileActions(acts).value.1 <==>
              exists i :: 0 <= i < |acts| && CompileAction(acts[i].0, acts[i].1).Ok?
                          && e in CompileAction(acts[i].0, acts[i].1).value.1
  {
    hide CompileAction;
    if acts != [] { ActionsCompiled(acts[..|acts| - 1]); }
  }

  /** The tests of a rule that compiles. */
  function TestsOf(cs: seq<Condition>, py: Conversions): (ts: seq<Test>)
    requires CompileTests(cs, py).Ok?
    ensures |ts| == |cs|
    ensures forall i :: 0 <= i < |cs| ==> CompileCondition(cs[i], py).Ok? && ts[i] == TestOf(cs[i], py)
  {
    TestsCompiled(cs, py);
    seq(|cs|, i requires 0 <= i < |cs| => TestOf(cs[i], py))
  }

  function Junction(mt: MatchType, ts: seq<Test>): Test
    requires ts != []
  {
    if |ts| == 1 then ts[0] else if mt == All then AllOf(ts) else AnyOf(ts)
  }

  function CommandOf(action: Action, argument: string): (c: Command)
    ensures !c.If?
  {
    match action
    case ActFileInto => FileInto(if argument == "" then "INBOX" else argument)
    case ActDiscard => Discard
    case ActReject => Reject(if argument == "" then "Message rejected by policy" else argument)
    case ActRedirect => Redirect(argument)
    case ActMarkRead => SetFlag("\\Seen")
    case ActFlag => AddFlag("\\Flagged")
    case ActStop => Stop
  }

  function CommandsFor(rule: Rule): (block: seq<Command>)
    ensures forall c :: c in block ==> !c.If?
    ensures |rule.actions| <= |block|
  {
    seq(|rule.actions|, i requires 0 <= i < |rule.actions| => CommandOf(rule.actions[i].0, rule.actions[i].1))
    + (if rule.stopOnMatch && !HasStop(rule.actions) then [Stop] else [])
  }

  function RuleOf(rule: Rule, py: Conversions): NamedRule
    requires RuleText(rule, py).Ok?
  {
    NamedRule(rule.name, If(Junction(rule.matchType, TestsOf(rule.conditions, py)), CommandsFor(rule)))
  }

  lemma {:induction false} ListText(ts: seq<Test>, texts: seq<string>)
    requires ts != [] && |texts| == |ts|
    requires forall i :: 0 <= i < |ts| ==> texts[i] == TextOf(TestPieces(ts[i]))
    ensures TextOf(ListPieces(ts)) == Join(",\n        ", texts)
  {
    hide TextOf, TestPieces;
    if |ts| > 1 {
      ListText(ts[1..], texts[1..]);
      RenderConcat(TestPieces(ts[0]), COMMA);
      RenderConcat(TestPieces(ts[0]) + COMMA, ListPieces(ts[1..]));
      CommaText();
    }
  }

  lemma {:induction false} CommaText()
    ensures TextOf(COMMA) == ",\n        "
    ensures TextOf(JUNCTION_CLOSE) == "\n    )"
  {
    TwoTexts(P(','), Gap(TEST_SEP));
    TwoTexts(Gap("\n    "), P(')'));
  }

  lemma {:induction false} OpenText(k: Keyword)
    ensures TextOf(JunctionOpen(k)) == Spell(k) + " (\n        "
  {
    hide TextOf, Spell;
    RenderConcat([W(k), Gap(" ")], [P('('), Gap(TEST_SEP)]);
    assert JunctionOpen(k) == [W(k), Gap(" ")] + [P('('), Gap(TEST_SEP)];
    TwoTexts(W(k), Gap(" "));
    TwoTexts(P('('), Gap(TEST_SEP));
    assert " " + ("(" + "\n        ") == " (\n        ";
  }

  lemma {:induction false} TwoTexts(p: Piece, q: Piece)
    ensures TextOf([p, q]) == PieceText(p) + PieceText(q)
  {
    assert [p, q] == [p] + [q];
    RenderCons(p, [q]);
    RenderOne(q);
  }

  lemma {:induction false} JunctionText(mt: MatchType, ts: seq<Test>, texts: seq<string>)
    requires ts != [] && |texts| == |ts|
    requires forall i :: 0 <= i < |ts| ==> texts[i] == TextOf(TestPieces(ts[i]))
    ensures TextOf(TestPieces(Junction(mt, ts))) == ConditionText(mt, texts)
  {
    if |ts| > 1 {
      var k := if mt == All then KAllOf else KAnyOf;
      assert TestPieces(Junction(mt, ts)) == JunctionOpen(k) + ListPieces(ts) + JUNCTION_CLOSE;
      assert Spell(k) == if mt == All then "allof" else "anyof";
      hide TextOf, TestPieces, ListPieces, JunctionOpen, Join, Spell;
      ListText(ts, texts);
      RenderConcat(JunctionOpen(k), ListPieces(ts));
      RenderConcat(JunctionOpen(k) + ListPieces(ts), JUNCTION_CLOSE);
      CommaText();
      OpenText(k);
    }
  }

  // ----- commands

  lemma {:induction false} CommandText(action: Action, argument: string)
    requires CompileAction(action, argument).Ok?
    ensures CompileAction(action, argument).value.0 == TextOf(CommandPieces(CommandOf(action, argument)))
    ensures CompileAction(action, argument).value.1 == CommandNeeds(CommandOf(action, argument))
  {
    hide TextOf, CommandPieces, Quote, IsAddress;
    CommandShape(CommandOf(action, argument));
    CommandLiterals();
    FlagQuotes();
  }

  lemma {:induction false} CommandLiterals()
    ensures "fileinto" + " " + (":" + "create") + " " == "fileinto :create "
    ensures "discard" + ";" == "discard;" && "stop" + ";" == "stop;"
    ensures "reject" + " " == "reject " && "redirect" + " " == "redirect "
  {
  }

  lemma {:induction false} FlagQuotes()
    ensures "setflag" + " " + Quote("\\Seen") + ";" == "setflag \"\\\\Seen\";"
    ensures "addflag" + " " + Quote("\\Flagged") + ";" == "addflag \"\\\\Flagged\";"
  {
    FlagQuoted("Seen");
    FlagQuoted("Flagged");
    assert "\\" + "Seen" == "\\Seen" && "\\" + "Flagged" == "\\Flagged";
    hide *;
    FlagLiterals();
  }

  lemma {:induction false} FlagLiterals()
    ensures "setflag" + " " + ("\"\\\\" + "Seen" + "\"") + ";" == "setflag \"\\\\Seen\";"
    ensures "addflag" + " " + ("\"\\\\" + "Flagged" + "\"") + ";" == "addflag \"\\\\Flagged\";"
  {
  }

  lemma {:induction false} FlagQuoted(name: string)
    requires '\\' !in name && '"' !in name
    ensures Quote("\\" + name) == "\"\\\\" + name + "\""
  {
    QuotedBodyCons("\\" + name);
    assert ("\\" + name)[1..] == name;
    QuotedPlain(name);
    hide QuotedBody;
    assert "\"" + "\\\\" == "\"\\\\";
  }

  lemma {:induction false} CommandShape(c: Command)
    requires !c.If?
    ensures TextOf(CommandPieces(c)) ==
      match c
      case FileInto(f) => "fileinto" + " " + (":" + "create") + " " + Quote(f) + ";"
      case Discard => "discard" + ";"
      case Reject(r) => "reject" + " " + Quote(r) + ";"
      case Redirect(a) => "redirect" + " " + Quote(a) + ";"
      case SetFlag(f) => "setflag" + " " + Quote(f) + ";"
      case AddFlag(f) => "addflag" + " " + Quote(f) + ";"
      case Stop => "stop" + ";"
  {
    CommandEnds(c);
    CommandTexts();
    match c
    case FileInto(f) =>
      WordsOf(c, [W(KFileInto), T(KCreate), Q(f)]);
      hide *;
      ThreeWords(W(KFileInto), T(KCreate), Q(f));
      PieceTexts(KCreate, f);
    case Discard => WordsOf(c, [W(KDiscard)]); hide *; RenderOne(W(KDiscard));
    case Reject(r) => OneArgument(c, KReject, r);
    case Redirect(a) => OneArgument(c, KRedirect, a);
    case SetFlag(f) => OneArgument(c, KSetFlag, f);
    case AddFlag(f) => OneArgument(c, KAddFlag, f);
    case Stop => WordsOf(c, [W(KStop)]); hide *; RenderOne(W(KStop));
  }

  lemma {:induction false} WordsOf(c: Command, ps: seq<Piece>)
    requires !c.If? && CommandWords(c) == ps
    ensures Spaced(CommandWords(c)) == Spaced(ps)
  {
    hide Spaced, CommandWords;
  }

  lemma {:induction false} OneArgument(c: Command, k: Keyword, argument: string)
    requires !c.If? && CommandWords(c) == [W(k), Q(argument)]
    ensures TextOf(Spaced(CommandWords(c))) == PieceText(W(k)) + " " + Quote(argument)
  {
    hide *;
    TwoWords(W(k), Q(argument));
    PieceTexts(k, argument);
  }

  lemma {:induction false} CommandEnds(c: Command)
    requires !c.If?
    ensures TextOf(CommandPieces(c)) == TextOf(Spaced(CommandWords(c))) + ";"
  {
    hide TextOf, Spaced, CommandWords;
    RenderConcat(Spaced(CommandWords(c)), [P(';')]);
    RenderOne(P(';'));
  }

  lemma {:induction false} CommandTexts()
    ensures PieceText(W(KFileInto)) == "fileinto" && Spell(KCreate) == "create" && PieceText(W(KDiscard)) == "discard"
    ensures PieceText(W(KReject)) == "reject" && PieceText(W(KRedirect)) == "redirect" && PieceText(W(KStop)) == "stop"
    ensures PieceText(W(KSetFlag)) == "setflag" && PieceText(W(KAddFlag)) == "addflag"
  {
  }

  lemma {:induction false} TwoWords(a: Piece, b: Piece)
    ensures TextOf(Spaced([a, b])) == PieceText(a) + " " + PieceText(b)
  {
    hide TextOf, Spaced, PieceText;
    assert [a, b] == [a] + [b];
    RenderSpaced(a, [b]);
    RenderOne(b);
  }

  // ----- whole rules

  /** Each line after the first of a joined text. */
  function Lines(ls: seq<string>): string {
    if ls == [] then "" else "\n" + ls[0] + Lines(ls[1..])
  }

  lemma {:induction false} JoinLines(x: string, rest: seq<string>)
    ensures Join("\n", [x] + rest) == x + Lines(rest)
    decreases |rest|
  {
    assert ([x] + rest)[1..] == rest;
    if rest != [] {
      JoinLines(rest[0], rest[1..]);
      assert rest == [rest[0]] + rest[1..];
    }
  }

  lemma {:induction false} LinesConcat(a: seq<string>, b: seq<string>)
    ensures Lines(a + b) == Lines(a) + Lines(b)
  {
    if a == [] {
      assert a + b == b;
    } else {
      assert (a + b)[1..] == a[1..] + b;
      LinesConcat(a[1..], b);
    }
  }

  lemma {:induction false} BlockText(block: seq<Command>, lines: seq<string>)
    requires Flat(block) && |lines| == |block|
    requires forall i :: 0 <= i < |block| ==> lines[i] == "    " + TextOf(CommandPieces(block[i]))
    ensures TextOf(BlockPieces(block)) == Lines(lines)
  {
    hide CommandPieces, TextOf;
    if block == [] {
      EmptyText();
    } else {
      BlockText(block[1..], lines[1..]);
      var gap, c, more := [Gap("\n    ")], CommandPieces(block[0]), BlockPieces(block[1..]);
      assert BlockPieces(block) == gap + c + more;
      assert Lines(lines) == "\n" + ("    " + TextOf(c)) + TextOf(more);
      hide *;
      RenderConcat(gap + c, more);
      RenderConcat(gap, c);
      IndentText();
    }
  }

  lemma {:induction false} IndentText()
    ensures TextOf([Gap("\n    ")]) == "\n" + "    "
  {
    RenderOne(Gap("\n    "));
  }

  lemma {:induction false} IfText(c: Command, lines: seq<string>)
    requires c.If? && Flat(c.block) && TextOf(BlockPieces(c.block)) == Lines(lines)
    ensures TextOf(IfPieces(c)) == "if " + TextOf(TestPieces(c.test)) + " {" + Lines(lines) + "\n}"
  {
    var test, block := TestPieces(c.test), BlockPieces(c.block);
    assert IfPieces(c) == IF_OPEN + test + BLOCK_OPEN + block + BLOCK_CLOSE;
    TwoTexts(W(KIf), Gap(" "));
    TwoTexts(Gap(" "), P('{'));
    TwoTexts(Gap("\n"), P('}'));
    hide TextOf, IfPieces, TestPieces, BlockPieces, Lines;
    RenderConcat(IF_OPEN, test);
    RenderConcat(IF_OPEN + test, BLOCK_OPEN);
    RenderConcat(IF_OPEN + test + BLOCK_OPEN, block);
    RenderConcat(IF_OPEN + test + BLOCK_OPEN + block, BLOCK_CLOSE);
    assert "if" + " " == "if " && " " + "{" == " {" && "\n" + "}" == "\n}";
  }

  /** The action lines of a rule, with the closing stop when it has one. */
  function RuleLines(rule: Rule): seq<string>
    requires CompileActions(rule.actions).Ok?
  {
    CompileActions(rule.actions).value.0
    + (if rule.stopOnMatch && !HasStop(rule.actions) then ["    stop;"] else [])
  }

  lemma {:induction false} RuleBlockText(rule: Rule)
    requires CompileActions(rule.actions).Ok?
    ensures TextOf(BlockPieces(CommandsFor(rule))) == Lines(RuleLines(rule))
  {
    var block, lines := CommandsFor(rule), RuleLines(rule);
    ActionsCompiled(rule.actions);
    assert |block| == |lines|;
    hide TextOf, CommandPieces, BlockPieces, CompileAction, CompileActions;
    StopLine();
    forall i | 0 <= i < |block| ensures lines[i] == "    " + TextOf(CommandPieces(block[i])) {
      if i < |rule.actions| { CommandText(rule.actions[i].0, rule.actions[i].1); }
    }
    hide CommandsFor, RuleLines;
    BlockText(block, lines);
  }

  lemma {:induction false} StopLine()
    ensures "    " + TextOf(CommandPieces(Stop)) == "    stop;"
  {
    hide TextOf, CommandPieces;
    CommandShape(Stop);
    assert "    " + ("stop" + ";") == "    stop;";
  }

  lemma {:induction false} RuleLayout(rule: Rule, py: Conversions)
    requires RuleText(rule, py).Ok?
    ensures RuleText(rule, py).value.0 == TextOf(RulePieces(RuleOf(rule, py)))
  {
    var test := Junction(rule.matchType, TestsOf(rule.conditions, py));
    var c := If(test, CommandsFor(rule));
    var texts := CompileTests(rule.conditions, py).value.0;
    RuleConditionText(rule, py);
    RuleBlockText(rule);
    var lines := RuleLines(rule);
    var condition := ConditionText(rule.matchType, texts);
    var head, open := "# " + rule.name, "if " + condition + " {";
    assert RuleText(rule, py).value.0 == Join("\n", [head, open] + lines + ["}"]);
    hide TextOf, TestPieces, BlockPieces, IfPieces, ConditionText, RuleText, Join, CommandsFor, TestsOf, RuleLines;
    IfText(c, lines);
    assert RulePieces(RuleOf(rule, py)) == [Note(" " + rule.name)] + IfPieces(c);
    hide *;
    RenderCons(Note(" " + rule.name), IfPieces(c));
    assert [head, open] + lines + ["}"] == [head] + ([open] + (lines + ["}"]));
    JoinLines(head, [open] + (lines + ["}"]));
    LinesConcat([open], lines + ["}"]);
    LinesConcat(lines, ["}"]);
    OneLine(open);
    OneLine("}");
    RuleGlue(rule.name, condition, Lines(lines));
    NotePieceText(" " + rule.name);
  }

  lemma {:induction false} NotePieceText(s: string)
    ensures PieceText(Note(s)) == "#" + s + "\n"
  {
  }

  lemma {:induction false} OneLine(x: string)
    ensures Lines([x]) == "\n" + x
  {
    assert [x][1..] == [];
  }

  lemma {:induction false} RuleGlue(name: string, condition: string, lines: string)
    ensures "# " + name + ("\n" + ("if " + condition + " {") + (lines + ("\n" + "}"))) ==
            "#" + (" " + name) + "\n" + ("if " + condition + " {" + lines + "\n}")
  {
    assert "# " == "#" + " ";
    assert "\n" + "}" == "\n}";
  }

  lemma {:induction false} RuleConditionText(rule: Rule, py: Conversions)
    requires RuleText(rule, py).Ok?
    ensures TextOf(TestPieces(Junction(rule.matchType, TestsOf(rule.conditions, py)))) ==
            ConditionText(rule.matchType, CompileTests(rule.conditions, py).value.0)
  {
    var ts, texts := TestsOf(rule.conditions, py), CompileTests(rule.conditions, py).value.0;
    TestsCompiled(rule.conditions, py);
    hide TextOf, TestPieces, CompileCondition, CompileTests, TestsOf, TestOf;
    forall i | 0 <= i < |ts| ensures texts[i] == TextOf(TestPieces(ts[i])) {
      ConditionLaid(rule.conditions[i], py);
    }
    JunctionText(rule.matchType, ts, texts);
  }

  /** No size condition of the rule has a negative number. */
  ghost predicate SizesValid(rule: Rule, py: Conversions) {
    forall c :: c in rule.conditions && c.field == SizeField && py.asInt(c.value).Some?
                ==> py.asInt(c.value).value >= 0
  }

  lemma {:induction false} RuleTestFits(rule: Rule, py: Conversions, i: nat)
    requires RuleText(rule, py).Ok? && i < |rule.conditions|
    ensures var t := TestsOf(rule.conditions, py)[i];
            var c := rule.conditions[i];
            ProperTest(t) && (SizesNonNegative(t) <==>
              (c.field == SizeField && py.asInt(c.value).Some? ==> py.asInt(c.value).value >= 0))
  {
    TestsCompiled(rule.conditions, py);
    ConditionLaid(rule.conditions[i], py);
    if rule.conditions[i].field == SizeField { SizeParses(rule.conditions[i], py); }
  }

  lemma {:induction false} RuleWellShaped(rule: Rule, py: Conversions)
    requires RuleText(rule, py).Ok?
    ensures RuleShape(RuleOf(rule, py).command)
    ensures SizesNonNegative(RuleOf(rule, py).command.test) <==> SizesValid(rule, py)
  {
    var cs, ts := rule.conditions, TestsOf(rule.conditions, py);
    assert ts != [] && CommandsFor(rule) != [];
    hide CompileCondition, CompileTests, TestOf, TestsOf, RuleText, CommandsFor;
    forall i | 0 <= i < |ts|
      ensures ProperTest(ts[i]) && (SizesNonNegative(ts[i]) <==>
        (cs[i].field == SizeField && py.asInt(cs[i].value).Some? ==> py.asInt(cs[i].value).value >= 0))
    {
      RuleTestFits(rule, py, i);
    }
    JunctionFits(rule.matchType, ts);
    if SizesValid(rule, py) {
      forall i | 0 <= i < |ts| ensures SizesNonNegative(ts[i]) { assert cs[i] in cs; }
    } else {
      var c :| c in cs && c.field == SizeField && py.asInt(c.value).Some? && py.asInt(c.value).value < 0;
      var i :| 0 <= i < |cs| && cs[i] == c;
      assert !SizesNonNegative(ts[i]);
    }
  }

  lemma {:induction false} JunctionFits(mt: MatchType, ts: seq<Test>)
    requires ts != [] && forall i :: 0 <= i < |ts| ==> ProperTest(ts[i])
    ensures ProperTest(Junction(mt, ts))
    ensures SizesNonNegative(Junction(mt, ts)) <==> forall i :: 0 <= i < |ts| ==> SizesNonNegative(ts[i])
  {
    var t := Junction(mt, ts);
    if |ts| > 1 {
      assert ProperTest(t) <==> forall u :: u in ts ==> ProperTest(u);
      assert SizesNonNegative(t) <==> forall u :: u in ts ==> SizesNonNegative(u);
    }
  }

  lemma {:induction false} SizeParses(c: Condition, py: Conversions)
    requires CompileCondition(c, py).Ok? && c.field == SizeField
    ensures py.asInt(c.value).Some?
  {
  }

  lemma {:induction false} RuleNeeds(rule: Rule, py: Conversions)
    requires RuleText(rule, py).Ok?
    ensures RuleText(rule, py).value.1 == CommandNeeds(RuleOf(rule, py).command)
  {
    var t, block := Junction(rule.matchType, TestsOf(rule.conditions, py)), CommandsFor(rule);
    JunctionNeeds(rule, py);
    BlockNeeds(rule);
    assert RuleText(rule, py).value.1 == TestNeeds(t) + Needs(block);
    hide RuleText, CompileTests, CompileActions, Junction, TestsOf, CommandsFor, TestNeeds;
    assert CommandNeeds(If(t, block)) == TestNeeds(t) + Needs(block);
  }

  lemma {:induction false} JunctionNeeds(rule: Rule, py: Conversions)
    requires RuleText(rule, py).Ok?
    ensures CompileTests(rule.conditions, py).value.1 ==
            TestNeeds(Junction(rule.matchType, TestsOf(rule.conditions, py)))
  {
    var cs, ts := rule.conditions, TestsOf(rule.conditions, py);
    var exts := CompileTests(cs, py).value.1;
    TestsCompiled(cs, py);
    hide CompileCondition, TestOf, CompileTests, TestsOf, TestNeeds;
    forall i | 0 <= i < |ts| ensures TestNeeds(ts[i]) == CompileCondition(cs[i], py).value.1 {
      ConditionLaid(cs[i], py);
    }
    TestNeedsUnion(rule.matchType, ts, exts);
  }

  lemma {:induction false} TestNeedsUnion(mt: MatchType, ts: seq<Test>, exts: set<string>)
    requires ts != []
    requires forall e :: e in exts <==> exists i :: 0 <= i < |ts| && e in TestNeeds(ts[i])
    ensures exts == TestNeeds(Junction(mt, ts))
  {
    var used := set u, e | u in ts && e in TestNeeds(u) :: e;
    assert |ts| > 1 ==> TestNeeds(Junction(mt, ts)) == used;
    hide TestNeeds;
    forall e ensures e in exts <==> e in used {
      if e in exts {
        var i :| 0 <= i < |ts| && e in TestNeeds(ts[i]);
        assert ts[i] in ts;
      }
    }
  }

  lemma {:induction false} BlockNeeds(rule: Rule)
    requires CompileActions(rule.actions).Ok?
    ensures CompileActions(rule.actions).value.1 == Needs(CommandsFor(rule))
  {
    var acts, block := rule.actions, CommandsFor(rule);
    var exts := CompileActions(acts).value.1;
    ActionsCompiled(acts);
    assert |block| > |acts| ==> CommandNeeds(block[|acts|]) == {};
    hide CompileAction, CompileActions, CommandNeeds;
    forall i | 0 <= i < |acts| ensures CommandNeeds(block[i]) == CompileAction(acts[i].0, acts[i].1).value.1 {
      CommandText(acts[i].0, acts[i].1);
    }
    hide CommandsFor, CommandOf;
    forall e ensures e in exts <==> e in Needs(block) {
      if e in exts {
        var i :| 0 <= i < |acts| && CompileAction(acts[i].0, acts[i].1).Ok?
                 && e in CompileAction(acts[i].0, acts[i].1).value.1;
        assert block[i] in block && e in CommandNeeds(block[i]);
      }
    }
  }

  // ----- whole scripts

  lemma {:induction false} BlocksCompiled(rules: seq<Rule>, py: Conversions)
    requires CompileBlocks(rules, py).Ok?
    ensures |CompileBlocks(rules, py).value.0| == |rules|
    ensures forall i | 0 <= i < |rules| ::
              RuleText(rules[i], py).Ok? && CompileBlocks(rules, py).value.0[i] == RuleText(rules[i], py).value.0
    ensures forall e :: e in CompileBlocks(rules, py).value.1 <==>
              exists i :: 0 <= i < |rules| && RuleText(rules[i], py).Ok? && e in RuleText(rules[i], py).value.1
  {
    hide RuleText;
    if rules != [] { BlocksCompiled(rules[..|rules| - 1], py); }
  }

  function RulesOf(rules: seq<Rule>, py: Conversions): (rs: seq<NamedRule>)
    requires CompileBlocks(rules, py).Ok?
    ensures |rs| == |rules|
    ensures forall i :: 0 <= i < |rs| ==> RuleText(rules[i], py).Ok? && rs[i] == RuleOf(rules[i], py)
  {
    BlocksCompiled(rules, py);
    seq(|rules|, i requires 0 <= i < |rules| => RuleOf(rules[i], py))
  }

  lemma {:induction false} BodyLayout(rs: seq<NamedRule>, blocks: seq<string>)
    requires RulesShape(rs) && rs != [] && |blocks| == |rs|
    requires forall i :: 0 <= i < |rs| ==> blocks[i] == TextOf(RulePieces(rs[i]))
    ensures TextOf(BodyPieces(rs)) == Join("\n\n", blocks) + "\n"
  {
    RulesShapeCons(rs);
    assert |rs| == 1 ==> BodyPieces(rs[1..]) == [];
    hide TextOf, RulePieces, BodyPieces, RulesShape;
    BodyTextCons(rs);
    if |rs| > 1 {
      BodyLayout(rs[1..], blocks[1..]);
      var rest := Join("\n\n", blocks[1..]);
      assert blocks[0] + "\n\n" + (rest + "\n") == blocks[0] + "\n\n" + rest + "\n";
    } else {
      EmptyText();
    }
  }

  lemma {:induction false} BodyTextCons(rs: seq<NamedRule>)
    requires RulesShape(rs) && rs != []
    ensures RulesShape(rs[1..])
    ensures TextOf(BodyPieces(rs)) == TextOf(RulePieces(rs[0])) + (if |rs| == 1 then "\n" else "\n\n") + TextOf(BodyPieces(rs[1..]))
  {
    BodyUnfold(rs);
    RulesShapeCons(rs);
    var one, gap, more := RulePieces(rs[0]), [RuleGap(rs)], BodyPieces(rs[1..]);
    assert PieceText(RuleGap(rs)) == if |rs| == 1 then "\n" else "\n\n";
    hide *;
    RenderConcat(one + gap, more);
    RenderConcat(one, gap);
    RenderOne(RuleGap(rs));
  }

  lemma {:induction false} EmptyText()
    ensures TextOf([]) == ""
  {
  }

  lemma {:induction false} BannerText()
    ensures TextOf(BANNER) == "# " + BANNER_1 + "\n# " + BANNER_2 + "\n" + "\n"
    ensures TextOf([Note(" No active rules.")]) == "# No active rules.\n"
  {
    assert BANNER == [Note(" " + BANNER_1)] + ([Note(" " + BANNER_2)] + [Gap("\n")]);
    NotesText(BANNER_1, BANNER_2);
    NoRulesText();
    hide *;
  }

  lemma {:induction false} NoRulesText()
    ensures TextOf([Note(" No active rules.")]) == "# No active rules.\n"
  {
    hide PieceText, TextOf;
    NotePieceText(" No active rules.");
    RenderOne(Note(" No active rules."));
    assert "#" + " No active rules." + "\n" == "# No active rules.\n";
  }

  lemma {:induction false} NotesText(a: string, b: string)
    ensures TextOf([Note(" " + a)] + ([Note(" " + b)] + [Gap("\n")])) == "# " + a + "\n# " + b + "\n" + "\n"
  {
    assert PieceText(Gap("\n")) == "\n";
    hide *;
    NotePieceText(" " + a);
    NotePieceText(" " + b);
    RenderCons(Note(" " + a), [Note(" " + b)] + [Gap("\n")]);
    RenderCons(Note(" " + b), [Gap("\n")]);
    RenderOne(Gap("\n"));
    BannerGlue(a, b);
  }

  lemma {:induction false} BannerGlue(a: string, b: string)
    ensures "#" + (" " + a) + "\n" + ("#" + (" " + b) + "\n" + "\n") == "# " + a + "\n# " + b + "\n" + "\n"
  {
    assert "# " == "#" + " " && "\n# " == "\n" + "#" + " ";
  }

  predicate IsExtension(e: string) { e in EXTENSIONS }

  lemma {:induction false} ExtensionsPlain(e: string)
    requires IsExtension(e)
    ensures QuotedBody(e) == e
  {
    hide QuotedBody;
    var i :| 0 <= i < |EXTENSIONS| && EXTENSIONS[i] == e;
    match i
    case 0 => QuotedPlain("body");
    case 1 => QuotedPlain("comparator-i;ascii-numeric");
    case 2 => QuotedPlain("fileinto");
    case 3 => QuotedPlain("imap4flags");
    case 4 => QuotedPlain("mailbox");
    case 5 => QuotedPlain("reject");
    case _ => QuotedPlain("relational");
  }

  lemma {:induction false} NamesText(names: seq<string>)
    requires names != [] && forall e :: e in names ==> IsExtension(e)
    ensures TextOf(NamePieces(names)) == Join(", ", QuoteAll(names))
  {
    var sep, more := [P(','), Gap(" ")], NamePieces(names[1..]);
    assert IsExtension(names[0]);
    hide *;
    NamePiecesUnfold(names);
    JoinQuoteAll(names);
    ExtensionText(names[0]);
    if |names| == 1 {
      RenderOne(Q(names[0]));
    } else {
      NamesText(names[1..]);
      RenderCons(Q(names[0]), sep + more);
      RenderConcat(sep, more);
      TwoTexts(P(','), Gap(" "));
      SeparatorText();
      var name, rest := "\"" + names[0] + "\"", Join(", ", QuoteAll(names[1..]));
      assert name + (", " + rest) == name + ", " + rest;
    }
  }

  lemma {:induction false} NamePiecesUnfold(names: seq<string>)
    requires names != []
    ensures NamePieces(names) ==
            if |names| == 1 then [Q(names[0])] else [Q(names[0])] + ([P(','), Gap(" ")] + NamePieces(names[1..]))
  {
  }

  lemma {:induction false} JoinQuoteAll(names: seq<string>)
    requires names != []
    ensures Join(", ", QuoteAll(names))
         == "\"" + names[0] + "\"" + (if |names| == 1 then "" else ", " + Join(", ", QuoteAll(names[1..])))
  {
    assert QuoteAll(names)[1..] == QuoteAll(names[1..]);
  }

  lemma {:induction false} ExtensionText(e: string)
    requires IsExtension(e)
    ensures PieceText(Q(e)) == "\"" + e + "\""
  {
    hide QuotedBody, IsExtension;
    ExtensionsPlain(e);
  }

  lemma {:induction false} SeparatorText()
    ensures PieceText(P(',')) + PieceText(Gap(" ")) == ", "
  {
  }

  lemma {:induction false} RequireText(names: seq<string>)
    requires names != [] && forall e :: e in names ==> IsExtension(e)
    ensures TextOf(RequirePieces(names)) == "require [" + Join(", ", QuoteAll(names)) + "];\n\n"
  {
    NamesText(names);
    RequireFrameText();
    assert RequirePieces(names) == REQUIRE_OPEN + NamePieces(names) + REQUIRE_CLOSE;
    hide TextOf, NamePieces, QuoteAll, Join;
    RenderConcat(REQUIRE_OPEN, NamePieces(names));
    RenderConcat(REQUIRE_OPEN + NamePieces(names), REQUIRE_CLOSE);
  }

  lemma {:induction false} RequireFrameText()
    ensures TextOf(REQUIRE_OPEN) == "require [" && TextOf(REQUIRE_CLOSE) == "];\n\n"
  {
    hide TextOf;
    assert REQUIRE_OPEN == [W(KRequire)] + [Gap(" "), P('[')];
    RenderCons(W(KRequire), [Gap(" "), P('[')]);
    TwoTexts(Gap(" "), P('['));
    assert REQUIRE_CLOSE == [P(']')] + [P(';'), Gap("\n\n")];
    RenderCons(P(']'), [P(';'), Gap("\n\n")]);
    TwoTexts(P(';'), Gap("\n\n"));
  }

  /** The rendered script is the layout of its rules under its require line. */
  lemma {:induction false} ScriptText(rules: seq<Rule>, py: Conversions)
    requires CompileBlocks(rules, py).Ok? && ScriptBody(rules, py).Ok?
    requires RulesShape(RulesOf(rules, py))
    requires forall e :: e in ScriptBody(rules, py).value.1 ==> e in EXTENSIONS
    ensures RenderScript(ScriptBody(rules, py).value.0, ScriptBody(rules, py).value.1) ==
            TextOf(ScriptPieces(SortedNames(ScriptBody(rules, py).value.1, EXTENSIONS), RulesOf(rules, py)))
  {
    var rs := RulesOf(rules, py);
    var body, exts := ScriptBody(rules, py).value.0, ScriptBody(rules, py).value.1;
    var names := SortedNames(exts, EXTENSIONS);
    var pieces := if rs == [] then [Note(" No active rules.")] else BodyPieces(rs);
    BannerText();
    assert TextOf(pieces) == body by {
      if rs != [] {
        var blocks := CompileBlocks(rules, py).value.0;
        BlocksCompiled(rules, py);
        hide TextOf, RuleText, RulePieces, RuleShape;
        forall i | 0 <= i < |rs| ensures blocks[i] == TextOf(RulePieces(rs[i])) { RuleLayout(rules[i], py); }
        BodyLayout(rs, blocks);
      }
    }
    hide TextOf, BodyPieces, RulesOf, ScriptBody, CompileBlocks, RuleShape, SortedNames, QuoteAll, Join;
    RenderConcat(BANNER, RequirePieces(names));
    RenderConcat(BANNER + RequirePieces(names), pieces);
    NamesEmpty(exts);
    if exts != {} { RequireText(names); } else { EmptyText(); }
  }

  lemma {:induction false} NamesEmpty(exts: set<string>)
    requires forall e :: e in exts ==> e in EXTENSIONS
    ensures SortedNames(exts, EXTENSIONS) == [] <==> exts == {}
  {
    var names := SortedNames(exts, EXTENSIONS);
    hide SortedNames;
    if exts != {} {
      var e :| e in exts;
      assert e in names;
    }
    if names != [] { assert names[0] in exts; }
  }
}
