/** The script generated for filter rules does exactly what the rules mean. */
module SieveCorrect {
  import opened Text
  import opened SieveStrings
  import opened SieveEngine
  import opened SieveLayout
  import opened SieveScript
  import opened RuleOrder
  import opened SieveCompile
  import opened SieveMeaning
  import opened SieveEmission

  // ----- conditions

  /** A compiled header test holds of exactly the values the operator means. */
  lemma {:induction false} HeaderValueCorrect(op: Operator, wanted: string, value: string)
    requires op != GreaterThan && op != LessThan
    ensures var t := HeaderTestOf("", op, wanted);
            HeaderMatches(t.how, t.key, value) <==> ValueHolds(op, wanted, value)
  {
    var w, v := Lower(wanted), Lower(value);
    hide GlobMatch, EscapeGlob, Lower;
    match op
    case StartsWith =>
      LowerPattern(wanted, "", "*");
      StartsWithGlob(w, v);
    case EndsWith =>
      LowerPattern(wanted, "*", "");
      EndsWithGlob(w, v);
    case _ =>
  }

  lemma {:induction false} LowerPattern(wanted: string, before: string, after: string)
    requires before in {"", "*"} && after in {"", "*"}
    ensures Lower(before + EscapeGlob(wanted)) == before + EscapeGlob(Lower(wanted))
    ensures Lower(EscapeGlob(wanted) + after) == EscapeGlob(Lower(wanted)) + after
  {
    LowerEscapeGlob(wanted);
    LowerConcat(before, EscapeGlob(wanted));
    LowerConcat(EscapeGlob(wanted), after);
    assert Lower("*") == "*" && Lower("") == "";
    hide EscapeGlob;
  }

  lemma {:induction false} HeaderCorrect(name: string, alias: string, op: Operator, wanted: string, m: Message)
    requires op != GreaterThan && op != LessThan && Lower(name) == Lower(alias)
    ensures EvalTest(HeaderTestOf(name, op, wanted), m) <==> SomeHeader(m, alias, op, wanted)
  {
    var t := HeaderTestOf(name, op, wanted);
    assert t.how == HeaderTestOf("", op, wanted).how && t.key == HeaderTestOf("", op, wanted).key;
    hide HeaderTestOf, HeaderMatches, ValueHolds, Lower;
    forall h | h in m.headers
      ensures HeaderMatches(t.how, t.key, h.1) <==> ValueHolds(op, wanted, h.1)
    {
      HeaderValueCorrect(op, wanted, h.1);
    }
  }

  lemma {:induction false} FieldNames()
    ensures Lower("From") == Lower("from") && Lower("To") == Lower("to")
    ensures Lower("Cc") == Lower("cc") && Lower("Subject") == Lower("subject")
  {
  }

  /** Every compiled condition evaluates to its meaning. */
  lemma {:induction false} ConditionCorrect(c: Condition, m: Message, py: Conversions)
    requires CompileCondition(c, py).Ok?
    ensures EvalTest(TestOf(c, py), m) <==> Holds(c, m, py)
  {
    FieldNames();
    hide HeaderTestOf, SomeHeader, Quote, EscapeGlob, Lower;
    match c.field
    case From => HeaderCorrect("From", "from", c.op, c.value, m);
    case To => HeaderCorrect("To", "to", c.op, c.value, m);
    case Cc => HeaderCorrect("Cc", "cc", c.op, c.value, m);
    case Subject => HeaderCorrect("Subject", "subject", c.op, c.value, m);
    case HeaderField => HeaderCorrect(c.header.value, c.header.value, c.op, c.value, m);
    case Body =>
    case SizeField =>
    case SpamScore =>
    case Attachment =>
      WantedWords(c.value);
      AttachmentHeader();
      HeaderCorrect(HAS_ATTACHMENT, HAS_ATTACHMENT, Equals, "yes", m);
    case _ =>
      Fragments(c.value);
      AuthHeader(AuthFragment(c.field, c.value));
      HeaderCorrect(AUTH_RESULTS, AUTH_RESULTS, ContainsOp, AuthFragment(c.field, c.value), m);
  }

  lemma {:induction false} Fragments(value: string)
    ensures AuthFragment(SpfResult, value) == "spf=" + value
    ensures AuthFragment(DkimResult, value) == "dkim=" + value
    ensures AuthFragment(DmarcResult, value) == "dmarc=" + value
  {
    assert "spf" + "=" == "spf=" && "dkim" + "=" == "dkim=" && "dmarc" + "=" == "dmarc=";
  }

  lemma {:induction false} WantedWords(value: string)
    ensures WantsAttachment(value) <==> value != "" && value != "0" && Lower(value) != "no" && Lower(value) != "false"
  {
    assert Lower(value) == "0" <==> value == "0" by {
      if Lower(value) == "0" { assert |value| == 1 && Lower(value)[0] == LowerChar(value[0]) == '0'; }
    }
  }

  lemma {:induction false} AttachmentHeader()
    ensures HeaderTestOf(HAS_ATTACHMENT, Equals, "yes") == Header(HIs, HAS_ATTACHMENT, "yes")
  {
  }

  lemma {:induction false} AuthHeader(fragment: string)
    ensures HeaderTestOf(AUTH_RESULTS, ContainsOp, fragment) == Header(HContains, AUTH_RESULTS, fragment)
  {
  }

  // ----- rules

  lemma {:induction false} RuleTestCorrect(rule: Rule, m: Message, py: Conversions)
    requires RuleText(rule, py).Ok?
    ensures EvalTest(RuleOf(rule, py).command.test, m) <==> RuleHolds(rule, m, py)
  {
    var cs, ts := rule.conditions, TestsOf(rule.conditions, py);
    TestsCompiled(cs, py);
    hide CompileCondition, CompileTests, TestOf, TestsOf, RuleText, Holds;
    forall i | 0 <= i < |ts| ensures EvalTest(ts[i], m) <==> Holds(cs[i], m, py) {
      ConditionCorrect(cs[i], m, py);
    }
    JunctionCorrect(rule.matchType, ts, m);
    if rule.matchType == All {
      if RuleHolds(rule, m, py) {
        forall i | 0 <= i < |ts| ensures EvalTest(ts[i], m) { assert cs[i] in cs; }
      }
    } else {
      if i :| 0 <= i < |ts| && EvalTest(ts[i], m) { assert cs[i] in cs; }
      if RuleHolds(rule, m, py) {
        var c :| c in cs && Holds(c, m, py);
        var i :| 0 <= i < |cs| && cs[i] == c;
        assert EvalTest(ts[i], m);
      }
    }
  }

  lemma {:induction false} JunctionCorrect(mt: MatchType, ts: seq<Test>, m: Message)
    requires ts != []
    ensures EvalTest(Junction(mt, ts), m) <==>
            if mt == All then forall i :: 0 <= i < |ts| ==> EvalTest(ts[i], m)
            else exists i :: 0 <= i < |ts| && EvalTest(ts[i], m)
  {
    var t := Junction(mt, ts);
    if |ts| > 1 {
      if mt == All {
        assert EvalTest(t, m) <==> forall u :: u in ts ==> EvalTest(u, m);
      } else {
        assert EvalTest(t, m) <==> exists u :: u in ts && EvalTest(u, m);
      }
    } else if mt == Any && EvalTest(ts[0], m) {
      assert 0 <= 0 < |ts| && EvalTest(ts[0], m);
    }
  }

  function CommandList(acts: seq<(Action, string)>): (cs: seq<Command>)
    ensures |cs| == |acts|
  {
    seq(|acts|, i requires 0 <= i < |acts| => CommandOf(acts[i].0, acts[i].1))
  }

  /** Running a rule's commands performs its actions up to a stop; `tail` is the
      stop the compiler may append. */
  lemma {:induction false} ActionsCorrect(acts: seq<(Action, string)>, tail: seq<Command>, m: Message)
    requires tail == [] || tail == [Stop]
    ensures RunCommands(CommandList(acts) + tail, m) ==
            Outcome(ActionEvents(acts), tail == [Stop] || HasStop(acts))
  {
    var cs := CommandList(acts) + tail;
    if acts == [] {
      assert cs == tail;
      assert tail == [Stop] ==> RunCommand(tail[0], m).stopped;
    } else {
      assert cs[1..] == CommandList(acts[1..]) + tail;
      assert acts == [acts[0]] + acts[1..];
      hide CommandList;
      ActionsCorrect(acts[1..], tail, m);
      var c := CommandOf(acts[0].0, acts[0].1);
      assert cs[0] == c;
      assert HasStop(acts) <==> acts[0].0 == ActStop || HasStop(acts[1..]);
    }
  }

  lemma {:induction false} RuleBlockCorrect(rule: Rule, m: Message)
    ensures RunCommands(CommandsFor(rule), m) ==
            Outcome(ActionEvents(rule.actions), rule.stopOnMatch || HasStop(rule.actions))
  {
    var tail := if rule.stopOnMatch && !HasStop(rule.actions) then [Stop] else [];
    assert CommandsFor(rule) == CommandList(rule.actions) + tail;
    ActionsCorrect(rule.actions, tail, m);
  }

  // ----- scripts

  lemma {:induction false} RunRules(rules: seq<Rule>, m: Message, py: Conversions)
    requires CompileBlocks(rules, py).Ok?
    ensures RunCommands(CommandsOf(RulesOf(rules, py)), m).events == DirectRun(rules, m, py)
  {
    if rules != [] {
      BlocksCompiled(rules, py);
      FirstRule(rules, py);
      RunRules(rules[1..], m, py);
      var c, cs := RuleOf(rules[0], py).command, CommandsOf(RulesOf(rules, py));
      RuleTestCorrect(rules[0], m, py);
      RuleBlockCorrect(rules[0], m);
      hide CompileBlocks, RuleText, RulesOf, CommandsOf, EvalTest, ActionEvents, HasStop, RuleHolds, CommandsFor, Junction, TestsOf;
      assert RunCommand(c, m) == if EvalTest(c.test, m) then RunCommands(c.block, m) else Outcome([], false);
      hide RunCommand;
      FirstThenRest(cs, m);
    }
  }

  lemma {:induction false} FirstRule(rules: seq<Rule>, py: Conversions)
    requires CompileBlocks(rules, py).Ok? && rules != []
    ensures RuleText(rules[0], py).Ok? && CompileBlocks(rules[1..], py).Ok?
    ensures CommandsOf(RulesOf(rules, py)) == [RuleOf(rules[0], py).command] + CommandsOf(RulesOf(rules[1..], py))
  {
    hide CompileBlocks, RuleText, RuleOf, RulesOf;
    TailCompiles(rules, py);
    var all, rest := RulesOf(rules, py), RulesOf(rules[1..], py);
    forall i | 0 <= i < |rest| ensures rest[i] == all[i + 1] { assert rules[1..][i] == rules[i + 1]; }
    CommandsCons(all, rest);
  }

  lemma {:induction false} CommandsCons(all: seq<NamedRule>, rest: seq<NamedRule>)
    requires |all| == |rest| + 1 && forall i :: 0 <= i < |rest| ==> rest[i] == all[i + 1]
    ensures CommandsOf(all) == [all[0].command] + CommandsOf(rest)
  {
  }

  lemma {:induction false} FirstThenRest(cs: seq<Command>, m: Message)
    requires cs != []
    ensures var first := RunCommand(cs[0], m);
            RunCommands(cs, m).events ==
              if first.stopped then first.events else first.events + RunCommands(cs[1..], m).events
  {
    hide RunCommand;
  }

  lemma {:induction false} TailCompiles(rules: seq<Rule>, py: Conversions)
    requires CompileBlocks(rules, py).Ok? && rules != []
    ensures CompileBlocks(rules[1..], py).Ok?
  {
    if CompileBlocks(rules[1..], py).SieveError? {
      hide RuleText;
      BlocksCompiled(rules, py);
      FailingRule(rules[1..], py);
    }
  }

  /** Compilation fails only because some rule fails. */
  lemma {:induction false} FailingRule(rules: seq<Rule>, py: Conversions)
    requires CompileBlocks(rules, py).SieveError?
    ensures exists i :: 0 <= i < |rules| && RuleText(rules[i], py).SieveError?
  {
    hide RuleText;
    if RuleText(rules[|rules| - 1], py).Ok? {
      FailingRule(rules[..|rules| - 1], py);
      var i :| 0 <= i < |rules| - 1 && RuleText(rules[..|rules| - 1][i], py).SieveError?;
      assert rules[..|rules| - 1][i] == rules[i];
    }
  }

  ghost predicate AllCompile(rules: seq<Rule>, py: Conversions) {
    forall i :: 0 <= i < |rules| ==> RuleText(rules[i], py).Ok?
  }

  /** A script compiles exactly when every rule is acceptable. */
  lemma {:induction false} CompilesIff(rules: seq<Rule>, py: Conversions)
    ensures ScriptBody(rules, py).Ok? <==> forall r :: r in rules ==> RuleAcceptable(r, py)
    ensures CompileBlocks(rules, py).Ok? <==> AllCompile(rules, py)
    ensures ScriptBody(rules, py).Ok? <==> AllCompile(rules, py)
  {
    hide RuleText, RuleAcceptable;
    if CompileBlocks(rules, py).Ok? { BlocksCompiled(rules, py); } else { FailingRule(rules, py); }
    forall r | r in rules ensures RuleText(r, py).Ok? <==> RuleAcceptable(r, py) { RuleCompilesIff(r, py); }
    assert AllCompile(rules, py) <==> forall r :: r in rules ==> RuleText(r, py).Ok?;
  }

  /** A name is written into a comment line as it is. */
  ghost predicate NamesHarmless(rules: seq<Rule>) { forall r :: r in rules ==> Harmless(r.name) }
  ghost predicate AllSizesValid(rules: seq<Rule>, py: Conversions) { forall r :: r in rules ==> SizesValid(r, py) }

  lemma {:induction false} RulesWellShaped(rules: seq<Rule>, py: Conversions)
    requires CompileBlocks(rules, py).Ok? && NamesHarmless(rules)
    ensures RulesShape(RulesOf(rules, py))
    ensures RulesNonNegative(RulesOf(rules, py)) <==> AllSizesValid(rules, py)
  {
    var rs := RulesOf(rules, py);
    hide CompileBlocks, RuleText, RuleShape, SizesNonNegative, SizesValid, RulesOf, Harmless;
    forall i | 0 <= i < |rs|
      ensures rs[i].command.If? && RuleShape(rs[i].command) && Harmless(rs[i].name)
      ensures SizesNonNegative(rs[i].command.test) <==> SizesValid(rules[i], py)
    {
      RuleWellShaped(rules[i], py);
      assert rules[i] in rules;
    }
    if RulesNonNegative(rs) {
      forall r | r in rules ensures SizesValid(r, py) {
        var i :| 0 <= i < |rules| && rules[i] == r;
        assert SizesNonNegative(rs[i].command.test);
      }
    }
    if AllSizesValid(rules, py) {
      forall i | 0 <= i < |rs| ensures SizesNonNegative(rs[i].command.test) { assert rules[i] in rules; }
    }
  }

  /** The recorded requirements are exactly the extensions the emitted commands
      use. */
  lemma {:induction false} RequiresExact(rules: seq<Rule>, py: Conversions)
    requires ScriptBody(rules, py).Ok?
    ensures CompileBlocks(rules, py).Ok?
    ensures ScriptBody(rules, py).value.1 == Needs(CommandsOf(RulesOf(rules, py)))
  {
    CompilesIff(rules, py);
    BlocksCompiled(rules, py);
    var cs := CommandsOf(RulesOf(rules, py));
    hide CompileBlocks, RuleText, CommandNeeds, RuleOf;
    forall i | 0 <= i < |cs| ensures RuleText(rules[i], py).Ok? && CommandNeeds(cs[i]) == RuleText(rules[i], py).value.1 {
      RuleNeeds(rules[i], py);
    }
    assert ScriptBody(rules, py).value.1 == CompileBlocks(rules, py).value.1;
    hide ScriptBody, RulesOf, CommandsOf;
    UnionIsNeeds(cs, seq(|cs|, i requires 0 <= i < |cs| => CommandNeeds(cs[i])), CompileBlocks(rules, py).value.1);
  }

  lemma {:induction false} UnionIsNeeds(cs: seq<Command>, parts: seq<set<string>>, all: set<string>)
    requires |parts| == |cs| && forall i :: 0 <= i < |cs| ==> parts[i] == CommandNeeds(cs[i])
    requires forall e :: e in all <==> exists i :: 0 <= i < |parts| && e in parts[i]
    ensures all == Needs(cs)
  {
    hide CommandNeeds;
    forall e ensures e in all <==> e in Needs(cs) {
      if e in all {
        var i :| 0 <= i < |parts| && e in parts[i];
        assert cs[i] in cs && e in CommandNeeds(cs[i]);
      }
    }
  }

  lemma {:induction false} NeedsAreExtensions(cs: seq<Command>)
    ensures forall e :: e in Needs(cs) ==> IsExtension(e)
  {
    hide IsExtension;
    forall c, e | c in cs && e in CommandNeeds(c) ensures IsExtension(e) { CommandNeedsKnown(c, e); }
  }

  lemma {:induction false} CommandNeedsKnown(c: Command, e: string)
    requires e in CommandNeeds(c)
    ensures IsExtension(e)
  {
    KnownNames();
    hide IsExtension;
    match c
    case If(t, block) =>
      if e in TestNeeds(t) {
        TestNeedsKnown(t, e);
      } else {
        var d :| d in block && e in CommandNeeds(d);
        CommandNeedsKnown(d, e);
      }
    case _ =>
  }

  lemma {:induction false} TestNeedsKnown(t: Test, e: string)
    requires e in TestNeeds(t)
    ensures IsExtension(e)
  {
    KnownNames();
    hide IsExtension;
    match t
    case Not(u) => TestNeedsKnown(u, e);
    case AllOf(ts) => var u :| u in ts && e in TestNeeds(u); TestNeedsKnown(u, e);
    case AnyOf(ts) => var u :| u in ts && e in TestNeeds(u); TestNeedsKnown(u, e);
    case _ =>
  }

  lemma {:induction false} KnownNames()
    ensures IsExtension("body") && IsExtension("comparator-i;ascii-numeric") && IsExtension("fileinto")
    ensures IsExtension("imap4flags") && IsExtension("mailbox") && IsExtension("reject") && IsExtension("relational")
  {
    var x := EXTENSIONS;
    assert x[0] in x && x[1] in x && x[2] in x && x[3] in x && x[4] in x && x[5] in x && x[6] in x;
  }

  /** What an engine makes of the text rendered for rules in run order: it refuses
      the script when a size limit is negative, and otherwise does what the rules
      mean. */
  lemma {:induction false} RenderedRun(rules: seq<Rule>, py: Conversions, m: Message)
    requires ScriptBody(rules, py).Ok? && NamesHarmless(rules)
    ensures var out := ScriptBody(rules, py).value;
            RunText(RenderScript(out.0, out.1), m) ==
              if AllSizesValid(rules, py) then Some(DirectRun(rules, m, py)) else None
  {
    RequiresExact(rules, py);
    RulesWellShaped(rules, py);
    RunRules(rules, m, py);
    var rs, exts := RulesOf(rules, py), ScriptBody(rules, py).value.1;
    NeedsAreExtensions(CommandsOf(rs));
    hide ScriptBody, CompileBlocks, RulesOf, CommandsOf, Needs, RenderScript, ScriptPieces, TextOf, Load, DirectRun;
    hide RunCommands, RulesShape, RulesNonNegative, AllSizesValid, NamesHarmless, SortedNames;
    KnownAreListed(exts);
    ScriptText(rules, py);
    var names := SortedNames(exts, EXTENSIONS);
    assert exts <= (set e | e in names);
    LoadLaidOut(names, rs);
  }

  lemma {:induction false} KnownAreListed(exts: set<string>)
    requires forall e :: e in exts ==> IsExtension(e)
    ensures forall e :: e in exts ==> e in EXTENSIONS
  {
  }

  // ----- the run order

  lemma {:induction false} SameStart(a: string, b: string)
    requires a != "" && b != ""
    ensures forall k: nat :: 0 < k <= |a| && k <= |b| && a[..k] == b[..k] ==> a[0] == b[0]
  {
    forall k: nat | 0 < k <= |a| && k <= |b| && a[..k] == b[..k] ensures a[0] == b[0] {
      assert a[..k][0] == a[0] && b[..k][0] == b[0];
    }
  }

  lemma {:induction false} NameBeforeIff(a: string, b: string)
    ensures StringLess(a, b) <==> NameBefore(a, b)
  {
    if b == "" {
    } else if a == "" {
      assert a[..0] == b[..0];
    } else if a[0] != b[0] {
      if a[0] < b[0] { assert a[..0] == b[..0]; }
      if NameBefore(a, b) {
        var k: nat :| k <= |a| && k < |b| && a[..k] == b[..k] && (k == |a| || a[k] < b[k]);
        SameStart(a, b);
      }
    } else {
      var x, y := a[1..], b[1..];
      NameBeforeIff(x, y);
      if NameBefore(x, y) {
        var k: nat :| k <= |x| && k < |y| && x[..k] == y[..k] && (k == |x| || x[k] < y[k]);
        assert a[..k + 1] == [a[0]] + x[..k] == b[..k + 1];
      }
      if NameBefore(a, b) {
        var k: nat :| k <= |a| && k < |b| && a[..k] == b[..k] && (k == |a| || a[k] < b[k]);
        assert x[..k - 1] == a[..k][1..] == b[..k][1..] == y[..k - 1];
      }
    }
  }

  lemma {:induction false} RunsBeforeIff(rules: seq<Rule>, i: nat, j: nat)
    ensures Before(Keys(rules), i, j) <==> RunsBefore(rules, i, j)
  {
    if i < |rules| && j < |rules| { NameBeforeIff(rules[i].name, rules[j].name); }
    hide StringLess, NameBefore;
  }

  lemma {:induction false} IsOrderIff(rules: seq<Rule>, order: seq<nat>)
    ensures IsOrder(rules, order) <==> IsRunOrder(Keys(rules), ActiveBelow(Actives(rules), |rules|), order)
  {
    forall i: nat, j: nat ensures Before(Keys(rules), i, j) <==> RunsBefore(rules, i, j) { RunsBeforeIff(rules, i, j); }
    hide Before, RunsBefore, Keys;
  }

  /** The sort puts the active rules in their one run order. */
  lemma {:induction false} SortedActiveIsOrder(rules: seq<Rule>) returns (order: seq<nat>)
    ensures IsOrder(rules, order)
    ensures forall other :: IsOrder(rules, other) ==> other == order
    ensures |SortedActive(rules)| == |order|
    ensures forall k: nat :: k < |order| ==> order[k] < |rules| && SortedActive(rules)[k] == rules[order[k]]
  {
    var keys, actives := Keys(rules), Actives(rules);
    order := SortChosen(keys, actives, |rules|);
    SortChosenIsRunOrder(keys, actives, |rules|);
    IsOrderIff(rules, order);
    forall other | IsOrder(rules, other) ensures other == order {
      IsOrderIff(rules, other);
      RunOrderUnique(keys, ActiveBelow(actives, |rules|), other, order);
    }
    assert SortedActive(rules) == Pick(rules, order);
    hide IsOrder, SortChosen;
    forall k: nat | k < |order| ensures order[k] < |rules| { assert order[k] in order; }
  }

  // ----- what compiles

  /** A condition compiles exactly when its operator, header name and value fit its
      field. */
  lemma {:induction false} ConditionCompilesIff(c: Condition, py: Conversions)
    ensures CompileCondition(c, py).Ok? <==> Acceptable(c, py)
  {
    hide Quote, EscapeGlob;
  }

  /** Every action compiles, a redirect exactly when its argument is an address. */
  lemma {:induction false} ActionCompilesIff(action: Action, argument: string)
    ensures CompileAction(action, argument).Ok? <==> (action == ActRedirect ==> LooksMailable(argument))
  {
    hide Quote;
    AddressIff(argument);
    hide IsAddress, LooksMailable;
  }

  lemma {:induction false} AddressIff(argument: string)
    ensures IsAddress(argument) <==> LooksMailable(argument)
  {
    var s := Strip(argument);
    if LooksMailable(argument) {
      var local, head, tail :| IsPiece(local) && IsPiece(head) && IsPiece(tail) && s == local + "@" + head + "." + tail;
      hide Strip, IsPiece, IsSpace;
      PiecesAddress(s, local, head, tail);
      assert 0 < |local| < |s| && s[|local|] == '@';
    } else if IsAddress(argument) {
      hide Strip, IsSpace, IsPiece, LooksMailable;
      var at :| 0 < at < |s| && s[at] == '@' && (forall i | 0 <= i < |s| :: i != at ==> s[i] != '@')
                && exists dot | at + 1 < dot < |s| - 1 :: s[dot] == '.';
      var dot :| at + 1 < dot < |s| - 1 && s[dot] == '.';
      AddressPieces(argument, at, dot);
    }
  }

  lemma {:induction false} AddressPieces(argument: string, at: nat, dot: nat)
    requires var s := Strip(argument);
             && 0 < at && at + 1 < dot < |s| - 1 && s[at] == '@' && s[dot] == '.'
             && (forall i | 0 <= i < |s| :: i != at ==> s[i] != '@') && forall i :: 0 <= i < |s| ==> !IsSpace(s[i])
    ensures LooksMailable(argument)
  {
    hide Strip, IsSpace;
    var s := Strip(argument);
    var local, head, tail := s[..at], s[at + 1..dot], s[dot + 1..];
    assert s == local + "@" + head + "." + tail;
    assert IsPiece(local) && IsPiece(head) && IsPiece(tail);
  }

  lemma {:induction false} PiecesAddress(s: string, local: string, head: string, tail: string)
    requires IsPiece(local) && IsPiece(head) && IsPiece(tail) && s == local + "@" + head + "." + tail
    ensures forall i :: 0 <= i < |s| ==> !IsSpace(s[i])
    ensures var at := |local|;
            && 0 < at < |s| && s[at] == '@' && (forall i | 0 <= i < |s| :: i != at ==> s[i] != '@')
            && exists dot | at + 1 < dot < |s| - 1 :: s[dot] == '.'
  {
    hide IsSpace;
    var at, dot := |local|, |local| + 1 + |head|;
    assert s[at] == '@' && s[dot] == '.';
    AtAndDot();
    forall i | 0 <= i < |s| ensures !IsSpace(s[i]) && (i != at ==> s[i] != '@') {
      if i < at { assert s[i] == local[i] && local[i] in local; }
      else if at < i < dot { assert s[i] == head[i - at - 1] && head[i - at - 1] in head; }
      else if i > dot { assert s[i] == tail[i - dot - 1] && tail[i - dot - 1] in tail; }
    }
  }

  lemma {:induction false} AtAndDot()
    ensures !IsSpace('@') && !IsSpace('.')
  {
  }

  lemma {:induction false} TestsCompileIff(cs: seq<Condition>, py: Conversions)
    ensures CompileTests(cs, py).Ok? <==> forall c :: c in cs ==> CompileCondition(c, py).Ok?
  {
    hide CompileCondition;
    if cs != [] {
      var init, last := cs[..|cs| - 1], cs[|cs| - 1];
      TestsCompileIff(init, py);
      assert cs == init + [last];
    }
  }

  lemma {:induction false} ActionsCompileIff(acts: seq<(Action, string)>)
    ensures CompileActions(acts).Ok? <==> forall a :: a in acts ==> CompileAction(a.0, a.1).Ok?
  {
    hide CompileAction;
    if acts != [] {
      var init, last := acts[..|acts| - 1], acts[|acts| - 1];
      ActionsCompileIff(init);
      assert acts == init + [last];
    }
  }

  /** A rule compiles exactly when it has conditions and actions and each of them
      compiles. */
  lemma {:induction false} RuleCompilesIff(rule: Rule, py: Conversions)
    ensures RuleText(rule, py).Ok? <==> RuleAcceptable(rule, py)
  {
    TestsCompileIff(rule.conditions, py);
    ActionsCompileIff(rule.actions);
    hide CompileCondition, CompileAction, CompileTests, CompileActions, ConditionText, Join, Acceptable, LooksMailable;
    forall c | c in rule.conditions ensures CompileCondition(c, py).Ok? <==> Acceptable(c, py) { ConditionCompilesIff(c, py); }
    forall a | a in rule.actions ensures CompileAction(a.0, a.1).Ok? <==> (a.0 == ActRedirect ==> LooksMailable(a.1)) {
      ActionCompilesIff(a.0, a.1);
    }
  }

  /** The compiler's whole contract. For every rule list and every message: it fails
      exactly when some active rule is not acceptable; otherwise the rendered text is a
      script whose run is the direct evaluation of the active rules by (priority, name)
      with ties in input order, unless an active rule compares the size with a negative
      number, in which case the engine refuses the script. */
  lemma {:induction false} CompileScriptCorrect(rules: seq<Rule>, order: seq<nat>, py: Conversions, m: Message)
    requires IsOrder(rules, order)
    requires forall i :: 0 <= i < |rules| && rules[i].isActive ==> Harmless(rules[i].name)
    ensures |SortedActive(rules)| == |order|
    ensures forall k: nat :: k < |order| ==> order[k] < |rules| && SortedActive(rules)[k] == rules[order[k]]
    ensures ScriptBody(SortedActive(rules), py).Ok? <==>
            forall i :: 0 <= i < |rules| && rules[i].isActive ==> RuleAcceptable(rules[i], py)
    ensures ScriptBody(SortedActive(rules), py).Ok? ==>
            var out := ScriptBody(SortedActive(rules), py).value;
            RunText(RenderScript(out.0, out.1), m) ==
              if forall i :: 0 <= i < |rules| && rules[i].isActive ==> SizesValid(rules[i], py)
              then Some(DirectRun(SortedActive(rules), m, py)) else None
  {
    var sorting := SortedActiveIsOrder(rules);
    var sorted := SortedActive(rules);
    assert forall i: nat :: i in order <==> i < |rules| && rules[i].isActive;
    hide RuleText, ScriptBody, RenderScript, RunText, DirectRun, SizesValid, SortedActive, IsOrder, Harmless, RuleAcceptable;
    CompilesIff(sorted, py);
    forall i | 0 <= i < |rules| && rules[i].isActive ensures rules[i] in sorted {
      assert i in order;
      var k :| 0 <= k < |order| && order[k] == i;
      assert sorted[k] == rules[i];
    }
    forall r | r in sorted ensures exists i :: 0 <= i < |rules| && rules[i].isActive && rules[i] == r {
      var k :| 0 <= k < |sorted| && sorted[k] == r;
      assert order[k] in order && rules[order[k]] == r;
    }
    if ScriptBody(sorted, py).Ok? { RenderedRun(sorted, py, m); }
  }
}
