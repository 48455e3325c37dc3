/** The layout of rules and whole scripts, and the proof that an engine loads
    back exactly the commands that were laid out. */
module SieveScript {
  import opened Text
  import opened SieveStrings
  import opened SieveEngine
  import opened SieveLayout

  // ----- commands inside a rule

  function CommandWords(c: Command): (ps: seq<Piece>)
    requires !c.If?
    ensures ps != [] && ps[0].W?
    ensures forall i :: 0 <= i < |ps| ==> IsToken(ps[i]) && ValidPiece(ps[i]) && !ps[i].N?
  {
    match c
    case FileInto(f) => [W(KFileInto), T(KCreate), Q(f)]
    case Discard => [W(KDiscard)]
    case Reject(r) => [W(KReject), Q(r)]
    case Redirect(a) => [W(KRedirect), Q(a)]
    case SetFlag(f) => [W(KSetFlag), Q(f)]
    case AddFlag(f) => [W(KAddFlag), Q(f)]
    case Stop => [W(KStop)]
  }

  function CommandPieces(c: Command): seq<Piece>
    requires !c.If?
  {
    Spaced(CommandWords(c)) + [P(';')]
  }

  ghost predicate Flat(block: seq<Command>) { forall c :: c in block ==> !c.If? }

  /** Each command on its own indented line. */
  function BlockPieces(block: seq<Command>): seq<Piece>
    requires Flat(block)
  {
    if block == [] then [] else [Gap("\n    ")] + CommandPieces(block[0]) + BlockPieces(block[1..])
  }

  lemma {:induction false} CommandLaid(c: Command)
    requires !c.If?
    ensures WellLaid(CommandPieces(c)) && NoNegatives(CommandPieces(c))
    ensures CommandPieces(c)[0].W? && CommandPieces(c)[|CommandPieces(c)| - 1] == P(';')
  {
    assert IsPunct(';');
    var ps := CommandWords(c);
    hide Spaced, WellLaid;
    SpacedLaid(ps);
    OneLaid(P(';'));
    WellLaidConcat(Spaced(ps), [P(';')]);
  }

  lemma {:induction false} CommandTokens(c: Command)
    requires !c.If?
    ensures Tokens(CommandPieces(c)) == TokenSeq(CommandWords(c)) + [Punct(';')]
  {
    var ps := CommandWords(c);
    SpacedTokens(ps);
    TokensConcat(Spaced(ps), [P(';')]);
    OneToken(P(';'));
  }

  lemma {:induction false} ParseCommandBack(c: Command, rest: seq<Token>)
    requires !c.If?
    ensures ParseCommand(Tokens(CommandPieces(c)) + rest) == Some((c, rest))
  {
    CommandTokens(c);
    ParseWords(c, rest);
  }

  lemma {:induction false} ParseWords(c: Command, rest: seq<Token>)
    requires !c.If?
    ensures ParseCommand(TokenSeq(CommandWords(c)) + [Punct(';')] + rest) == Some((c, rest))
  {
    hide ParseTest, ParseCommands;
    var words := TokenSeq(CommandWords(c));
    var all := words + [Punct(';')] + rest;
    assert all[|words| + 1..] == rest;
    assert all[|words|] == Punct(';');
  }

  lemma {:induction false} BlockLaid(block: seq<Command>)
    requires Flat(block)
    ensures WellLaid(BlockPieces(block)) && NoNegatives(BlockPieces(block))
    ensures block != [] ==> BlockPieces(block) != [] && BlockPieces(block)[0].Gap?
                            && BlockPieces(block)[|BlockPieces(block)| - 1] == P(';')
  {
    if block != [] {
      assert IsGap("\n    ");
      OneLaid(Gap("\n    "));
      CommandLaid(block[0]);
      BlockLaid(block[1..]);
      hide WellLaid, NoNegatives, CommandPieces;
      WellLaidConcat([Gap("\n    ")], CommandPieces(block[0]));
      WellLaidConcat([Gap("\n    ")] + CommandPieces(block[0]), BlockPieces(block[1..]));
    }
  }

  lemma {:induction false} BlockTokens(block: seq<Command>)
    requires Flat(block) && block != []
    ensures Tokens(BlockPieces(block)) == Tokens(CommandPieces(block[0])) + Tokens(BlockPieces(block[1..]))
  {
    var gap, c, more := [Gap("\n    ")], CommandPieces(block[0]), BlockPieces(block[1..]);
    OneToken(Gap("\n    "));
    assert BlockPieces(block) == gap + c + more;
    hide *;
    TokensConcat3(gap, c, more);
  }

  lemma {:induction false} ParseBlockBack(block: seq<Command>, rest: seq<Token>)
    requires Flat(block) && At(rest, 0, Punct('}'))
    ensures ParseCommands(Tokens(BlockPieces(block)) + rest) == Some((block, rest))
  {
    hide ParseCommands, ParseCommand, CommandPieces;
    if block == [] {
      assert Tokens(BlockPieces(block)) + rest == rest;
      ParseEnd(rest);
    } else {
      var tail := Tokens(BlockPieces(block[1..])) + rest;
      BlockTokens(block);
      ParseCommandBack(block[0], tail);
      ParseBlockBack(block[1..], rest);
      CommandStart(block[0]);
      hide *;
      assert Tokens(BlockPieces(block)) + rest == Tokens(CommandPieces(block[0])) + tail;
      ParseNextCommand(Tokens(CommandPieces(block[0])), tail, block[0], block[1..], rest);
      assert block == [block[0]] + block[1..];
    }
  }

  lemma {:induction false} ParseEnd(rest: seq<Token>)
    requires rest == [] || rest[0] == Punct('}')
    ensures ParseCommands(rest) == Some(([], rest))
  {
    hide ParseCommand;
  }

  /** A parsed command followed by parsed commands. */
  lemma {:induction false} ParseNextCommand(first: seq<Token>, tail: seq<Token>, c: Command,
                                            more: seq<Command>, rest: seq<Token>)
    requires first != [] && first[0].Word?
    requires ParseCommand(first + tail) == Some((c, tail))
    requires ParseCommands(tail) == Some((more, rest))
    ensures ParseCommands(first + tail) == Some(([c] + more, rest))
  {
    hide ParseCommand;
  }

  lemma {:induction false} CommandStart(c: Command)
    requires !c.If?
    ensures Tokens(CommandPieces(c)) != [] && Tokens(CommandPieces(c))[0].Word?
  {
    CommandTokens(c);
  }

  // ----- rules

  ghost predicate RuleShape(c: Command) {
    c.If? && ProperTest(c.test) && c.block != [] && Flat(c.block)
  }

  const IF_OPEN := [W(KIf), Gap(" ")]
  const BLOCK_OPEN := [Gap(" "), P('{')]
  const BLOCK_CLOSE := [Gap("\n"), P('}')]

  function IfPieces(c: Command): seq<Piece>
    requires c.If? && Flat(c.block)
  {
    IF_OPEN + TestPieces(c.test) + BLOCK_OPEN + BlockPieces(c.block) + BLOCK_CLOSE
  }

  lemma {:induction false} FrameLaid()
    ensures WellLaid(IF_OPEN) && WellLaid(BLOCK_OPEN) && WellLaid(BLOCK_CLOSE)
    ensures NoNegatives(IF_OPEN) && NoNegatives(BLOCK_OPEN) && NoNegatives(BLOCK_CLOSE)
  {
    assert IsGap(" ") && IsGap("\n") && IsPunct('{') && IsPunct('}');
  }

  lemma {:induction false} FrameTokens()
    ensures Tokens(IF_OPEN) == [Word(KIf)]
    ensures Tokens(BLOCK_OPEN) == [Punct('{')]
    ensures Tokens(BLOCK_CLOSE) == [Punct('}')]
  {
    TwoTokens(W(KIf), Gap(" "));
    TwoTokens(Gap(" "), P('{'));
    TwoTokens(Gap("\n"), P('}'));
  }

  lemma {:induction false} IfLaid(c: Command)
    requires RuleShape(c)
    ensures WellLaid(IfPieces(c)) && (NoNegatives(IfPieces(c)) <==> SizesNonNegative(c.test))
    ensures IfPieces(c)[0] == W(KIf) && IfPieces(c)[|IfPieces(c)| - 1] == P('}')
  {
    TestLaid(c.test);
    BlockLaid(c.block);
    FrameLaid();
    hide WellLaid, NoNegatives, TestPieces, BlockPieces, ProperTest, SizesNonNegative;
    WellLaidConcat(IF_OPEN, TestPieces(c.test));
    WellLaidConcat(IF_OPEN + TestPieces(c.test), BLOCK_OPEN);
    WellLaidConcat(IF_OPEN + TestPieces(c.test) + BLOCK_OPEN, BlockPieces(c.block));
    WellLaidConcat(IF_OPEN + TestPieces(c.test) + BLOCK_OPEN + BlockPieces(c.block), BLOCK_CLOSE);
  }

  lemma {:induction false} IfTokens(c: Command)
    requires c.If? && Flat(c.block)
    ensures Tokens(IfPieces(c)) ==
            [Word(KIf)] + (Tokens(TestPieces(c.test)) + ([Punct('{')] + (Tokens(BlockPieces(c.block)) + [Punct('}')])))
  {
    FrameTokens();
    var test, block := TestPieces(c.test), BlockPieces(c.block);
    assert IfPieces(c) == IF_OPEN + test + BLOCK_OPEN + block + BLOCK_CLOSE;
    hide *;
    TokensConcat5(IF_OPEN, test, BLOCK_OPEN, block, BLOCK_CLOSE);
  }

  lemma {:induction false} ParseIfBack(c: Command, rest: seq<Token>)
    requires RuleShape(c) && SizesNonNegative(c.test)
    ensures ParseCommand(Tokens(IfPieces(c)) + rest) == Some((c, rest))
  {
    IfTokens(c);
    assert c == If(c.test, c.block);
    var test, block := Tokens(TestPieces(c.test)), Tokens(BlockPieces(c.block));
    var afterBlock := [Punct('}')] + rest;
    var afterTest := [Punct('{')] + (block + afterBlock);
    assert At(afterBlock, 0, Punct('}'));
    assert ProperTest(c.test) && Flat(c.block);
    hide *;
    ParseTestBack(c.test, afterTest);
    ParseBlockBack(c.block, afterBlock);
    Reassociate([Word(KIf)], test, [Punct('{')], block, [Punct('}')], rest);
    ParseIfParts(test + afterTest, c.test, block + afterBlock, c.block, rest);
  }

  lemma {:induction false} Reassociate<T>(a: seq<T>, b: seq<T>, c: seq<T>, d: seq<T>, e: seq<T>, f: seq<T>)
    ensures (a + (b + (c + (d + e)))) + f == a + (b + (c + (d + (e + f))))
  {
    assert (d + e) + f == d + (e + f);
    assert (c + (d + e)) + f == c + (d + (e + f));
    assert (b + (c + (d + e))) + f == b + (c + (d + (e + f)));
  }

  lemma {:induction false} ParseIfParts(ts: seq<Token>, test: Test, inner: seq<Token>, block: seq<Command>, rest: seq<Token>)
    requires ParseTest(ts) == Some((test, [Punct('{')] + inner))
    requires ParseCommands(inner) == Some((block, [Punct('}')] + rest))
    ensures ParseCommand([Word(KIf)] + ts) == Some((If(test, block), rest))
  {
    hide ParseTest, ParseCommands;
    assert ([Word(KIf)] + ts)[1..] == ts;
    assert ([Punct('{')] + inner)[1..] == inner;
    assert ([Punct('}')] + rest)[1..] == rest;
  }

  // ----- the body of a script

  /** A rule as emitted: the name it is commented with, and its command. */
  datatype NamedRule = NamedRule(name: string, command: Command)

  ghost predicate RulesShape(rs: seq<NamedRule>) {
    forall i :: 0 <= i < |rs| ==> RuleShape(rs[i].command) && Harmless(rs[i].name)
  }

  ghost predicate RulesNonNegative(rs: seq<NamedRule>) {
    forall i :: 0 <= i < |rs| ==> rs[i].command.If? && SizesNonNegative(rs[i].command.test)
  }

  function RulePieces(r: NamedRule): seq<Piece>
    requires r.command.If? && Flat(r.command.block)
  {
    [Note(" " + r.name)] + IfPieces(r.command)
  }

  function BodyPieces(rs: seq<NamedRule>): seq<Piece>
    requires forall i :: 0 <= i < |rs| ==> rs[i].command.If? && Flat(rs[i].command.block)
  {
    if rs == [] then []
    else RulePieces(rs[0]) + [RuleGap(rs)] + BodyPieces(rs[1..])
  }

  function CommandsOf(rs: seq<NamedRule>): seq<Command> {
    seq(|rs|, i requires 0 <= i < |rs| => rs[i].command)
  }

  lemma {:induction false} RuleLaid(r: NamedRule)
    requires RuleShape(r.command) && Harmless(r.name)
    ensures WellLaid(RulePieces(r)) && (NoNegatives(RulePieces(r)) <==> SizesNonNegative(r.command.test))
    ensures RulePieces(r)[0].Note? && RulePieces(r)[|RulePieces(r)| - 1] == P('}')
  {
    IfLaid(r.command);
    HarmlessAfterSpace(r.name);
    OneLaid(Note(" " + r.name));
    hide WellLaid, NoNegatives, IfPieces, RuleShape, SizesNonNegative;
    WellLaidConcat([Note(" " + r.name)], IfPieces(r.command));
  }

  lemma {:induction false} HarmlessAfterSpace(name: string)
    requires Harmless(name)
    ensures Harmless(" " + name)
  {
    hide LexesAway;
    assert (" " + name)[1..] == name;
    assert AfterLine(" " + name) == AfterLine(name);
  }

  lemma {:induction false} RulesNonNegativeCons(rs: seq<NamedRule>)
    requires rs != [] && rs[0].command.If?
    ensures RulesNonNegative(rs) <==> SizesNonNegative(rs[0].command.test) && RulesNonNegative(rs[1..])
  {
    hide SizesNonNegative;
    assert rs == [rs[0]] + rs[1..];
    if RulesNonNegative(rs) {
      forall i | 0 <= i < |rs[1..]|
        ensures rs[1..][i].command.If? && SizesNonNegative(rs[1..][i].command.test)
      {
        assert rs[1..][i] == rs[i + 1];
      }
    }
  }

  function RuleGap(rs: seq<NamedRule>): Piece { Gap(if |rs| == 1 then "\n" else "\n\n") }

  lemma {:induction false} BodyLaid(rs: seq<NamedRule>)
    requires RulesShape(rs)
    ensures WellLaid(BodyPieces(rs)) && (NoNegatives(BodyPieces(rs)) <==> RulesNonNegative(rs))
    ensures rs != [] ==> BodyPieces(rs) != [] && BodyPieces(rs)[0].Note?
  {
    if rs != [] {
      RulesShapeCons(rs);
      assert Harmless(rs[0].name);
      hide *;
      BodyLaid(rs[1..]);
      RuleLaid(rs[0]);
      RulesNonNegativeCons(rs);
      RuleGapLaid(rs);
      var rule, gap, more := RulePieces(rs[0]), [RuleGap(rs)], BodyPieces(rs[1..]);
      BodyUnfold(rs);
      JoinsRule(rule[|rule| - 1], rs);
      WellLaidConcat(rule, gap);
      if more != [] { JoinsNote(rs, more[0]); }
      WellLaidConcat(rule + gap, more);
    } else {
      hide RulesShape;
    }
  }

  lemma {:induction false} BodyUnfold(rs: seq<NamedRule>)
    requires RulesShape(rs) && rs != []
    ensures BodyPieces(rs) == RulePieces(rs[0]) + [RuleGap(rs)] + BodyPieces(rs[1..])
    ensures RulePieces(rs[0]) != [] && BodyPieces(rs)[0] == RulePieces(rs[0])[0]
    ensures rs[1..] == [] ==> BodyPieces(rs[1..]) == []
  {
    hide IfPieces, RuleShape;
  }

  lemma {:induction false} RuleGapLaid(rs: seq<NamedRule>)
    ensures WellLaid([RuleGap(rs)]) && NoNegatives([RuleGap(rs)])
  {
    assert IsGap("\n") && IsGap("\n\n");
    OneLaid(RuleGap(rs));
  }

  lemma {:induction false} JoinsRule(p: Piece, rs: seq<NamedRule>)
    requires p == P('}')
    ensures Joins(p, RuleGap(rs))
  {
  }

  lemma {:induction false} JoinsNote(rs: seq<NamedRule>, p: Piece)
    requires p.Note?
    ensures Joins(RuleGap(rs), p)
  {
  }

  lemma {:induction false} BodyTokens(rs: seq<NamedRule>)
    requires RulesShape(rs) && rs != []
    ensures Tokens(BodyPieces(rs)) == Tokens(IfPieces(rs[0].command)) + Tokens(BodyPieces(rs[1..]))
  {
    var note, cmd, gap, more := [Note(" " + rs[0].name)], IfPieces(rs[0].command), [RuleGap(rs)], BodyPieces(rs[1..]);
    OneToken(note[0]);
    OneToken(gap[0]);
    assert BodyPieces(rs) == note + cmd + gap + more;
    hide *;
    TokensConcat3(note + cmd, gap, more);
    TokensConcat(note, cmd);
  }

  lemma {:induction false} ParseBodyBack(rs: seq<NamedRule>)
    requires RulesShape(rs) && RulesNonNegative(rs)
    ensures ParseCommands(Tokens(BodyPieces(rs))) == Some((CommandsOf(rs), []))
  {
    hide ParseCommand, ParseCommands, SizesNonNegative, ProperTest, IfPieces;
    if rs == [] {
      assert CommandsOf(rs) == [];
      ParseEnd([]);
    } else {
      RulesShapeCons(rs);
      RulesNonNegativeCons(rs);
      hide *;
      BodyTokens(rs);
      var c, first, tail := rs[0].command, Tokens(IfPieces(rs[0].command)), Tokens(BodyPieces(rs[1..]));
      ParseIfBack(c, tail);
      FirstIsIf(c);
      ParseBodyBack(rs[1..]);
      ParseNextCommand(first, tail, c, CommandsOf(rs[1..]), []);
    }
  }

  lemma {:induction false} RulesShapeCons(rs: seq<NamedRule>)
    requires RulesShape(rs) && rs != []
    ensures RuleShape(rs[0].command) && RulesShape(rs[1..])
    ensures rs[0].command.If? && Flat(rs[0].command.block)
    ensures CommandsOf(rs) == [rs[0].command] + CommandsOf(rs[1..])
  {
  }

  lemma {:induction false} FirstIsIf(c: Command)
    requires c.If? && Flat(c.block)
    ensures Tokens(IfPieces(c)) != [] && Tokens(IfPieces(c))[0] == Word(KIf)
  {
    hide Flat, TestPieces, BlockPieces;
    IfTokens(c);
    hide Tokens, IfPieces;
  }

  // ----- the require line

  function NamePieces(names: seq<string>): seq<Piece> {
    if names == [] then []
    else if |names| == 1 then [Q(names[0])]
    else [Q(names[0]), P(','), Gap(" ")] + NamePieces(names[1..])
  }

  const REQUIRE_OPEN := [W(KRequire), Gap(" "), P('[')]
  const REQUIRE_CLOSE := [P(']'), P(';'), Gap("\n\n")]

  function RequirePieces(names: seq<string>): seq<Piece> {
    if names == [] then [] else REQUIRE_OPEN + NamePieces(names) + REQUIRE_CLOSE
  }

  const BANNER := [Note(" " + BANNER_1), Note(" " + BANNER_2), Gap("\n")]

  lemma {:induction false} RequireFrameLaid()
    ensures WellLaid(REQUIRE_OPEN) && NoNegatives(REQUIRE_OPEN)
    ensures WellLaid(REQUIRE_CLOSE) && NoNegatives(REQUIRE_CLOSE)
  {
    assert IsGap(" ") && IsGap("\n\n") && IsPunct('[') && IsPunct(']') && IsPunct(';');
  }

  lemma {:induction false} NamesLaid(names: seq<string>)
    requires names != []
    ensures WellLaid(NamePieces(names)) && NoNegatives(NamePieces(names))
    ensures NamePieces(names) != [] && NamePieces(names)[0].Q? && NamePieces(names)[|NamePieces(names)| - 1].Q?
  {
    OneLaid(Q(names[0]));
    if |names| > 1 {
      NamesLaid(names[1..]);
      assert IsGap(" ") && IsPunct(',');
      var sep := [Q(names[0]), P(','), Gap(" ")];
      assert WellLaid(sep) && NoNegatives(sep);
      hide WellLaid, NoNegatives;
      WellLaidConcat(sep, NamePieces(names[1..]));
    }
  }

  lemma {:induction false} RequireLaid(names: seq<string>)
    ensures WellLaid(RequirePieces(names)) && NoNegatives(RequirePieces(names))
    ensures names != [] ==> RequirePieces(names) != [] && RequirePieces(names)[0].W?
                            && RequirePieces(names)[|RequirePieces(names)| - 1].Gap?
  {
    if names != [] {
      NamesLaid(names);
      RequireFrameLaid();
      hide WellLaid, NoNegatives, NamePieces;
      WellLaidConcat(REQUIRE_OPEN, NamePieces(names));
      WellLaidConcat(REQUIRE_OPEN + NamePieces(names), REQUIRE_CLOSE);
    }
  }

  lemma {:induction false} BannerLaid()
    ensures WellLaid(BANNER) && NoNegatives(BANNER)
  {
    assert IsGap("\n");
    BannerOneLine();
    NotesLaid(BANNER_1, BANNER_2);
  }

  lemma {:induction false} NotesLaid(a: string, b: string)
    requires '\n' !in a && '\n' !in b
    ensures WellLaid([Note(" " + a), Note(" " + b), Gap("\n")])
    ensures NoNegatives([Note(" " + a), Note(" " + b), Gap("\n")])
  {
    assert IsGap("\n");
  }

  lemma {:induction false} ParseNamesBack(names: seq<string>, rest: seq<Token>)
    requires names != []
    ensures ParseNames(Tokens(NamePieces(names)) + ([Punct(']'), Punct(';')] + rest)) == Some((names, rest))
  {
    var tail := [Punct(']'), Punct(';')] + rest;
    if |names| == 1 {
      OneToken(Q(names[0]));
      hide Tokens;
      var all := [Str(names[0]), Punct(']'), Punct(';')] + rest;
      assert Tokens(NamePieces(names)) + tail == all;
      assert all[3..] == rest;
      assert names == [names[0]];
    } else {
      hide Tokens, NamePieces, ParseNames;
      var toks := Tokens(NamePieces(names[1..])) + tail;
      ParseNamesBack(names[1..], rest);
      NameTokens(names);
      assert Tokens(NamePieces(names)) + tail == [Str(names[0]), Punct(',')] + toks;
      ParseNextName(names[0], toks);
      assert names == [names[0]] + names[1..];
    }
  }

  lemma {:induction false} ParseNextName(name: string, toks: seq<Token>)
    ensures ParseNames([Str(name), Punct(',')] + toks)
         == match ParseNames(toks) case None => None case Some((names, rest)) => Some(([name] + names, rest))
  {
    var all := [Str(name), Punct(',')] + toks;
    assert all[2..] == toks;
  }

  lemma {:induction false} NameTokens(names: seq<string>)
    requires |names| > 1
    ensures Tokens(NamePieces(names)) == [Str(names[0]), Punct(',')] + Tokens(NamePieces(names[1..]))
  {
    SeparatorTokens(names[0]);
    var more := NamePieces(names[1..]);
    assert NamePieces(names) == [Q(names[0]), P(','), Gap(" ")] + more;
    hide Tokens, NamePieces;
    TokensConcat([Q(names[0]), P(','), Gap(" ")], more);
  }

  lemma {:induction false} SeparatorTokens(name: string)
    ensures Tokens([Q(name), P(','), Gap(" ")]) == [Str(name), Punct(',')]
  {
    TokensConcat([Q(name)], [P(','), Gap(" ")]);
    TwoTokens(P(','), Gap(" "));
    OneToken(Q(name));
    assert [Q(name), P(','), Gap(" ")] == [Q(name)] + [P(','), Gap(" ")];
  }

  lemma {:induction false} RequireTokens(names: seq<string>)
    requires names != []
    ensures Tokens(RequirePieces(names)) ==
            [Word(KRequire), Punct('[')] + Tokens(NamePieces(names)) + [Punct(']'), Punct(';')]
  {
    hide Tokens, NamePieces;
    TokensConcat(REQUIRE_OPEN, NamePieces(names));
    TokensConcat(REQUIRE_OPEN + NamePieces(names), REQUIRE_CLOSE);
    TwoTokens(W(KRequire), Gap(" "));
    OneToken(P('['));
    TokensConcat([W(KRequire), Gap(" ")], [P('[')]);
    assert REQUIRE_OPEN == [W(KRequire), Gap(" ")] + [P('[')];
    TwoTokens(P(']'), P(';'));
    OneToken(Gap("\n\n"));
    TokensConcat([P(']'), P(';')], [Gap("\n\n")]);
    assert REQUIRE_CLOSE == [P(']'), P(';')] + [Gap("\n\n")];
  }

  // ----- whole scripts

  function ScriptPieces(names: seq<string>, rs: seq<NamedRule>): seq<Piece>
    requires forall i :: 0 <= i < |rs| ==> rs[i].command.If? && Flat(rs[i].command.block)
  {
    BANNER + RequirePieces(names) + (if rs == [] then [Note(" No active rules.")] else BodyPieces(rs))
  }

  lemma {:induction false} ScriptLaid(names: seq<string>, rs: seq<NamedRule>)
    requires RulesShape(rs)
    ensures WellLaid(ScriptPieces(names, rs))
    ensures NoNegatives(ScriptPieces(names, rs)) <==> RulesNonNegative(rs)
  {
    BannerLaid();
    RequireLaid(names);
    BodyLaid(rs);
    assert '\n' !in " No active rules.";
    OneLaid(Note(" No active rules."));
    hide WellLaid, NoNegatives, RequirePieces, BodyPieces;
    WellLaidConcat(BANNER, RequirePieces(names));
    WellLaidConcat(BANNER + RequirePieces(names), if rs == [] then [Note(" No active rules.")] else BodyPieces(rs));
  }

  lemma {:induction false} BannerTokens()
    ensures Tokens(BANNER) == [] && Tokens([Note(" No active rules.")]) == []
  {
    var n1, n2, gap := BANNER[0], BANNER[1], BANNER[2];
    TwoTokens(n1, n2);
    OneToken(gap);
    OneToken(Note(" No active rules."));
    TokensConcat([n1, n2], [gap]);
    assert BANNER == [n1, n2] + [gap];
  }

  lemma {:induction false} ScriptTokens(names: seq<string>, rs: seq<NamedRule>)
    requires RulesShape(rs)
    ensures Tokens(ScriptPieces(names, rs)) == Tokens(RequirePieces(names)) + Tokens(BodyPieces(rs))
  {
    BannerTokens();
    var body := if rs == [] then [Note(" No active rules.")] else BodyPieces(rs);
    assert Tokens(body) == Tokens(BodyPieces(rs));
    assert ScriptPieces(names, rs) == BANNER + RequirePieces(names) + body;
    hide *;
    TokensConcat3(BANNER, RequirePieces(names), body);
  }

  /** Loading a laid-out script gives its commands back when they use only
      declared extensions and no size limit is negative, and is refused
      otherwise. */
  lemma {:induction false} LoadLaidOut(names: seq<string>, rs: seq<NamedRule>)
    requires RulesShape(rs)
    ensures Load(TextOf(ScriptPieces(names, rs))) ==
            if RulesNonNegative(rs) && Needs(CommandsOf(rs)) <= (set e | e in names)
            then Some(Script(names, CommandsOf(rs))) else None
  {
    ScriptLaid(names, rs);
    LexRender(ScriptPieces(names, rs));
    if RulesNonNegative(rs) {
      ParseLaidOut(names, rs);
    }
    hide Lex, ParseScript, ScriptPieces, TextOf, WellLaid, NoNegatives, Needs, RulesNonNegative;
  }

  lemma {:induction false} ParseLaidOut(names: seq<string>, rs: seq<NamedRule>)
    requires RulesShape(rs) && RulesNonNegative(rs)
    ensures ParseScript(Tokens(ScriptPieces(names, rs))) == Some(Script(names, CommandsOf(rs)))
  {
    BodyStart(rs);
    ScriptTokens(names, rs);
    ParseBodyBack(rs);
    var body := Tokens(BodyPieces(rs));
    ParseRequireBody(names, body, CommandsOf(rs));
    hide *;
  }

  lemma {:induction false} ParseRequireBody(names: seq<string>, body: seq<Token>, commands: seq<Command>)
    requires !At(body, 0, Word(KRequire)) && ParseCommands(body) == Some((commands, []))
    ensures ParseScript(Tokens(RequirePieces(names)) + body) == Some(Script(names, commands))
  {
    hide *;
    if names == [] {
      NoRequireTokens();
      assert [] + body == body;
      ParseNoRequire(body, commands);
    } else {
      RequireTokens(names);
      ParseNamesBack(names, body);
      var open, inner, close := [Word(KRequire), Punct('[')], Tokens(NamePieces(names)), [Punct(']'), Punct(';')];
      assert open + inner + close + body == open + (inner + (close + body));
      ParseScriptParts(inner + (close + body), names, body, commands);
    }
  }

  lemma {:induction false} NoRequireTokens()
    ensures Tokens(RequirePieces([])) == []
  {
  }

  lemma {:induction false} BodyStart(rs: seq<NamedRule>)
    requires RulesShape(rs)
    ensures !At(Tokens(BodyPieces(rs)), 0, Word(KRequire))
  {
    if rs != [] {
      BodyTokens(rs);
      IfTokens(rs[0].command);
    }
  }

  lemma {:induction false} ParseNoRequire(body: seq<Token>, commands: seq<Command>)
    requires !At(body, 0, Word(KRequire)) && ParseCommands(body) == Some((commands, []))
    ensures ParseScript(body) == Some(Script([], commands))
  {
    hide ParseNames, ParseCommands;
  }

  lemma {:induction false} ParseScriptParts(inner: seq<Token>, names: seq<string>, body: seq<Token>, commands: seq<Command>)
    requires ParseNames(inner) == Some((names, body))
    requires ParseCommands(body) == Some((commands, []))
    ensures ParseScript([Word(KRequire), Punct('[')] + inner) == Some(Script(names, commands))
  {
    hide ParseNames, ParseCommands;
    assert ([Word(KRequire), Punct('[')] + inner)[2..] == inner;
  }
}
