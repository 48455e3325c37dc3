/** The compiler from filter rules to Sieve text (src/lightr/dovecot/sieve.py). */
module SieveCompile {
  import opened Text
  import opened SieveStrings
  import opened RuleOrder

  datatype Field =
    | From | To | Cc | Subject | Body | HeaderField | Attachment | SizeField
    | SpamScore | SpfResult | DkimResult | DmarcResult

  datatype Operator = Equals | ContainsOp | StartsWith | EndsWith | MatchesOp | GreaterThan | LessThan

  datatype Action =
    | ActFileInto | ActDiscard | ActReject | ActRedirect | ActMarkRead | ActFlag | ActStop

  datatype MatchType = All | Any

  datatype Condition = Condition(field: Field, op: Operator, value: string, header: Option<string>)

  datatype Rule = Rule(name: string, conditions: seq<Condition>, actions: seq<(Action, string)>,
                       matchType: MatchType, priority: int, stopOnMatch: bool, isActive: bool)

  /** Python's own number parsing: whether `float(s)` succeeds, and what `int(s)` gives. */
  datatype Conversions = Conversions(isFloat: string -> bool, asInt: string -> Option<int>)

  /** A compiled value, or a `SieveError`. */
  datatype Result<+T> = Ok(value: T) | SieveError

  type Compiled = Result<(string, set<string>)>

  const SPAM_SCORE := "X-Spam-Score"
  const AUTH_RESULTS := "Authentication-Results"
  const HAS_ATTACHMENT := "X-Lightr-Has-Attachment"

  function HeaderTest(header: string, op: Operator, value: string): Result<string> {
    var pattern :=
      match op
      case StartsWith => EscapeGlob(value) + "*"
      case EndsWith => "*" + EscapeGlob(value)
      case _ => value;
    match op
    case Equals => Ok("header :is " + Quote(header) + " " + Quote(pattern))
    case ContainsOp => Ok("header :contains " + Quote(header) + " " + Quote(pattern))
    case GreaterThan => SieveError
    case LessThan => SieveError
    case _ => Ok("header :matches " + Quote(header) + " " + Quote(pattern))
  }

  function NumericHeaderTest(header: string, op: Operator, value: string, py: Conversions): Compiled {
    if !py.isFloat(value) then SieveError
    else if op != GreaterThan && op != LessThan then SieveError
    else
      var comparator := if op == GreaterThan then "gt" else "lt";
      Ok(("header :value \"" + comparator + "\" :comparator \"i;ascii-numeric\" "
          + Quote(header) + " " + Quote(value),
          {"relational", "comparator-i;ascii-numeric"}))
  }

  function AuthFragment(f: Field, value: string): string {
    (match f case SpfResult => "spf" case DkimResult => "dkim" case _ => "dmarc") + "=" + value
  }

  predicate WantsAttachment(value: string) { Lower(value) !in {"false", "no", "0", ""} }

  function Plain(r: Result<string>): Compiled {
    match r case SieveError => SieveError case Ok(test) => Ok((test, {}))
  }

  function CompileCondition(c: Condition, py: Conversions): Compiled {
    match c.field
    case From => Plain(HeaderTest("From", c.op, c.value))
    case To => Plain(HeaderTest("To", c.op, c.value))
    case Cc => Plain(HeaderTest("Cc", c.op, c.value))
    case Subject => Plain(HeaderTest("Subject", c.op, c.value))
    case HeaderField =>
      if c.header == None || c.header.value == "" then SieveError
      else Plain(HeaderTest(c.header.value, c.op, c.value))
    case Body =>
      if c.op == ContainsOp then Ok(("body :text :contains " + Quote(c.value), {"body"}))
      else if c.op == MatchesOp then Ok(("body :text :matches " + Quote(c.value), {"body"}))
      else SieveError
    case SizeField =>
      (match py.asInt(c.value)
       case None => SieveError
       case Some(size) =>
         if c.op == GreaterThan then Ok(("size :over " + Signed(size), {}))
         else if c.op == LessThan then Ok(("size :under " + Signed(size), {}))
         else SieveError)
    case SpamScore => NumericHeaderTest(SPAM_SCORE, c.op, c.value, py)
    case Attachment =>
      var test := "header :is " + Quote(HAS_ATTACHMENT) + " \"yes\"";
      Ok((if WantsAttachment(c.value) then test else "not " + test, {}))
    case _ => Ok(("header :contains " + Quote(AUTH_RESULTS) + " " + Quote(AuthFragment(c.field, c.value)), {}))
  }

  /** Exactly one `@`, no white space, a non-empty local part, and a dot inside
      the domain with characters on both sides. */
  predicate IsAddress(value: string) {
    var s := Strip(value);
    && (forall i :: 0 <= i < |s| ==> !IsSpace(s[i]))
    && exists at | 0 < at < |s| ::
         && s[at] == '@'
         && (forall i | 0 <= i < |s| :: i != at ==> s[i] != '@')
         && exists dot | at + 1 < dot < |s| - 1 :: s[dot] == '.'
  }

  function CompileAction(action: Action, argument: string): Compiled {
    match action
    case ActFileInto =>
      Ok(("fileinto :create " + Quote(if argument == "" then "INBOX" else argument) + ";",
          {"fileinto", "mailbox"}))
    case ActDiscard => Ok(("discard;", {}))
    case ActReject =>
      Ok(("reject " + Quote(if argument == "" then "Message rejected by policy" else argument) + ";",
          {"reject"}))
    case ActRedirect =>
      if IsAddress(argument) then Ok(("redirect " + Quote(argument) + ";", {})) else SieveError
    case ActMarkRead => Ok(("setflag \"\\\\Seen\";", {"imap4flags"}))
    case ActFlag => Ok(("addflag \"\\\\Flagged\";", {"imap4flags"}))
    case ActStop => Ok(("stop;", {}))
  }

  // ----- one rule

  function CompileTests(cs: seq<Condition>, py: Conversions): Result<(seq<string>, set<string>)> {
    if cs == [] then Ok(([], {}))
    else
      match CompileTests(cs[..|cs| - 1], py)
      case SieveError => SieveError
      case Ok((tests, exts)) =>
        match CompileCondition(cs[|cs| - 1], py)
        case SieveError => SieveError
        case Ok((test, needed)) => Ok((tests + [test], exts + needed))
  }

  function CompileActions(acts: seq<(Action, string)>): Result<(seq<string>, set<string>)> {
    if acts == [] then Ok(([], {}))
    else
      match CompileActions(acts[..|acts| - 1])
      case SieveError => SieveError
      case Ok((lines, exts)) =>
        var last := acts[|acts| - 1];
        match CompileAction(last.0, last.1)
        case SieveError => SieveError
        case Ok((command, needed)) => Ok((lines + ["    " + command], exts + needed))
  }

  predicate HasStop(acts: seq<(Action, string)>) { exists a | a in acts :: a.0 == ActStop }

  function ConditionText(matchType: MatchType, tests: seq<string>): string {
    if |tests| == 1 then tests[0]
    else (if matchType == All then "allof" else "anyof") + " (\n        "
         + Join(",\n        ", tests) + "\n    )"
  }

  function RuleText(rule: Rule, py: Conversions): Compiled {
    if rule.conditions == [] || rule.actions == [] then SieveError
    else
      match CompileTests(rule.conditions, py)
      case SieveError => SieveError
      case Ok((tests, testExts)) =>
        match CompileActions(rule.actions)
        case SieveError => SieveError
        case Ok((lines, actionExts)) =>
          var body := lines + (if rule.stopOnMatch && !HasStop(rule.actions) then ["    stop;"] else []);
          Ok((Join("\n", ["# " + rule.name, "if " + ConditionText(rule.matchType, tests) + " {"] + body + ["}"]),
              testExts + actionExts))
  }

  method CompileRule(rule: Rule, py: Conversions) returns (r: Compiled)
    ensures r == RuleText(rule, py)
  {
    hide CompileCondition, CompileAction, CompileTests, CompileActions, ConditionText, Join;
    if rule.conditions == [] || rule.actions == [] { return SieveError; }
    CompileTestsStart(rule.conditions, py);
    CompileActionsStart(rule.actions);
    var exts, tests := {}, [];
    for i := 0 to |rule.conditions|
      invariant CompileTests(rule.conditions[..i], py) == Ok((tests, exts))
    {
      var c := CompileCondition(rule.conditions[i], py);
      CompileTestsStep(rule.conditions, i, py);
      if c.SieveError? {
        CompileTestsFails(rule.conditions, i + 1, py);
        return SieveError;
      }
      tests, exts := tests + [c.value.0], exts + c.value.1;
    }
    assert rule.conditions[..|rule.conditions|] == rule.conditions;
    ghost var testExts := exts;
    ghost var actionExts: set<string> := {};
    var body := [];
    for i := 0 to |rule.actions|
      invariant CompileActions(rule.actions[..i]) == Ok((body, actionExts))
      invariant exts == testExts + actionExts
    {
      var c := CompileAction(rule.actions[i].0, rule.actions[i].1);
      CompileActionsStep(rule.actions, i);
      if c.SieveError? {
        CompileActionsFails(rule.actions, i + 1);
        return SieveError;
      }
      body := body + ["    " + c.value.0];
      exts := exts + c.value.1;
      actionExts := actionExts + c.value.1;
    }
    assert rule.actions[..|rule.actions|] == rule.actions;
    ghost var lines := body;
    if rule.stopOnMatch && !HasStop(rule.actions) { body := body + ["    stop;"]; }
    assert body == lines + (if rule.stopOnMatch && !HasStop(rule.actions) then ["    stop;"] else []);
    r := Ok((Join("\n", ["# " + rule.name, "if " + ConditionText(rule.matchType, tests) + " {"] + body + ["}"]), exts));
  }

  lemma {:induction false} CompileTestsStart(cs: seq<Condition>, py: Conversions)
    ensures CompileTests(cs[..0], py) == Ok(([], {}))
  {
  }

  /** One turn of the loop extends the compiled prefix. */
  lemma {:induction false} CompileTestsStep(cs: seq<Condition>, i: nat, py: Conversions)
    requires i < |cs| && CompileTests(cs[..i], py).Ok?
    ensures CompileTests(cs[..i + 1], py) ==
            match CompileCondition(cs[i], py)
            case SieveError => SieveError
            case Ok((text, needed)) =>
              var before := CompileTests(cs[..i], py).value;
              Ok((before.0 + [text], before.1 + needed))
  {
    assert cs[..i + 1][..i] == cs[..i];
  }

  lemma {:induction false} CompileTestsFails(cs: seq<Condition>, n: nat, py: Conversions)
    requires n <= |cs| && CompileTests(cs[..n], py).SieveError?
    ensures CompileTests(cs, py).SieveError?
  {
    if n == |cs| {
      assert cs[..n] == cs;
    } else {
      assert cs[..|cs| - 1][..n] == cs[..n];
      CompileTestsFails(cs[..|cs| - 1], n, py);
    }
  }

  lemma {:induction false} CompileActionsStart(acts: seq<(Action, string)>)
    ensures CompileActions(acts[..0]) == Ok(([], {}))
  {
  }

  /** One turn of the loop extends the compiled prefix. */
  lemma {:induction false} CompileActionsStep(acts: seq<(Action, string)>, i: nat)
    requires i < |acts| && CompileActions(acts[..i]).Ok?
    ensures CompileActions(acts[..i + 1]) ==
            match CompileAction(acts[i].0, acts[i].1)
            case SieveError => SieveError
            case Ok((text, needed)) =>
              var before := CompileActions(acts[..i]).value;
              Ok((before.0 + ["    " + text], before.1 + needed))
  {
    assert acts[..i + 1][..i] == acts[..i];
  }

  lemma {:induction false} CompileActionsFails(acts: seq<(Action, string)>, n: nat)
    requires n <= |acts| && CompileActions(acts[..n]).SieveError?
    ensures CompileActions(acts).SieveError?
  {
    if n == |acts| {
      assert acts[..n] == acts;
    } else {
      assert acts[..|acts| - 1][..n] == acts[..n];
      CompileActionsFails(acts[..|acts| - 1], n);
    }
  }

  // ----- a whole script

  function Keys(rules: seq<Rule>): seq<Key> {
    seq(|rules|, i requires 0 <= i < |rules| => Key(rules[i].priority, rules[i].name))
  }

  function Actives(rules: seq<Rule>): seq<bool> {
    seq(|rules|, i requires 0 <= i < |rules| => rules[i].isActive)
  }

  /** The rules at some indices, in that order. */
  function Pick(rules: seq<Rule>, order: seq<nat>): seq<Rule>
    requires forall i: nat :: i in order ==> i < |rules|
  {
    seq(|order|, k requires 0 <= k < |order| => assert order[k] in order; rules[order[k]])
  }

  /** `sorted((r for r in rules if r.is_active), key=lambda r: (r.priority, r.name))` */
  function SortedActive(rules: seq<Rule>): seq<Rule> {
    Pick(rules, SortChosen(Keys(rules), Actives(rules), |rules|))
  }

  function CompileBlocks(rules: seq<Rule>, py: Conversions): Result<(seq<string>, set<string>)> {
    if rules == [] then Ok(([], {}))
    else
      match CompileBlocks(rules[..|rules| - 1], py)
      case SieveError => SieveError
      case Ok((blocks, exts)) =>
        match RuleText(rules[|rules| - 1], py)
        case SieveError => SieveError
        case Ok((block, needed)) => Ok((blocks + [block], exts + needed))
  }

  function ScriptBody(rules: seq<Rule>, py: Conversions): Compiled {
    if rules == [] then Ok(("# No active rules.\n", {}))
    else
      match CompileBlocks(rules, py)
      case SieveError => SieveError
      case Ok((blocks, exts)) => Ok((Join("\n\n", blocks) + "\n", exts))
  }

  method CompileScript(rules: seq<Rule>, py: Conversions) returns (r: Compiled)
    ensures r == ScriptBody(SortedActive(rules), py)
  {
    hide RuleText, CompileBlocks, Join;
    var active := SortedActive(rules);
    CompileBlocksStart(active, py);
    if active == [] { return Ok(("# No active rules.\n", {})); }
    var blocks, exts := [], {};
    for i := 0 to |active|
      invariant CompileBlocks(active[..i], py) == Ok((blocks, exts))
    {
      var c := CompileRule(active[i], py);
      CompileBlocksStep(active, i, py);
      if c.SieveError? {
        CompileBlocksFails(active, i + 1, py);
        return SieveError;
      }
      blocks, exts := blocks + [c.value.0], exts + c.value.1;
    }
    assert active[..|active|] == active;
    r := Ok((Join("\n\n", blocks) + "\n", exts));
  }

  lemma {:induction false} CompileBlocksStart(rules: seq<Rule>, py: Conversions)
    ensures CompileBlocks(rules[..0], py) == Ok(([], {}))
  {
  }

  /** One turn of the loop extends the compiled prefix. */
  lemma {:induction false} CompileBlocksStep(rules: seq<Rule>, i: nat, py: Conversions)
    requires i < |rules| && CompileBlocks(rules[..i], py).Ok?
    ensures CompileBlocks(rules[..i + 1], py) ==
            match RuleText(rules[i], py)
            case SieveError => SieveError
            case Ok((text, needed)) =>
              var before := CompileBlocks(rules[..i], py).value;
              Ok((before.0 + [text], before.1 + needed))
  {
    assert rules[..i + 1][..i] == rules[..i];
  }

  lemma {:induction false} CompileBlocksFails(rules: seq<Rule>, n: nat, py: Conversions)
    requires n <= |rules| && CompileBlocks(rules[..n], py).SieveError?
    ensures CompileBlocks(rules, py).SieveError?
  {
    if n == |rules| {
      assert rules[..n] == rules;
    } else {
      assert rules[..|rules| - 1][..n] == rules[..n];
      CompileBlocksFails(rules[..|rules| - 1], n, py);
    }
  }

  /** Every extension the compiler can ask for, in the order `sorted` puts them. */
  const EXTENSIONS := ["body", "comparator-i;ascii-numeric", "fileinto", "imap4flags",
                       "mailbox", "reject", "relational"]

  /** `sorted(requires)` for a subset of `EXTENSIONS`. */
  function SortedNames(requires_: set<string>, all: seq<string>): (r: seq<string>)
    ensures forall e :: e in r <==> e in requires_ && e in all
  {
    if all == [] then []
    else (if all[0] in requires_ then [all[0]] else []) + SortedNames(requires_, all[1..])
  }

  function QuoteAll(names: seq<string>): seq<string> {
    seq(|names|, i requires 0 <= i < |names| => "\"" + names[i] + "\"")
  }

  function RenderScript(body: string, requires_: set<string>): string {
    var names := SortedNames(requires_, EXTENSIONS);
    "# " + BANNER_1 + "\n# " + BANNER_2 + "\n" + "\n"
    + (if requires_ == {} then "" else "require [" + Join(", ", QuoteAll(names)) + "];\n\n")
    + body
  }
}
