/** What filter rules mean, stated without Sieve. */
module SieveMeaning {
  import opened Text
  import opened SieveStrings
  import opened SieveEngine
  import opened SieveCompile

  // ----- what compiles

  predicate IsComparison(op: Operator) { op == GreaterThan || op == LessThan }

  /** The conditions the compiler accepts. */
  predicate Acceptable(c: Condition, py: Conversions) {
    match c.field
    case Body => c.op == ContainsOp || c.op == MatchesOp
    case SizeField => IsComparison(c.op) && py.asInt(c.value).Some?
    case SpamScore => IsComparison(c.op) && py.isFloat(c.value)
    case HeaderField => !IsComparison(c.op) && c.header.Some? && c.header.value != ""
    case From => !IsComparison(c.op)
    case To => !IsComparison(c.op)
    case Cc => !IsComparison(c.op)
    case Subject => !IsComparison(c.op)
    case Attachment => true
    case SpfResult => true
    case DkimResult => true
    case DmarcResult => true
  }

  /** A non-empty piece of an address. */
  predicate IsPiece(s: string) { s != "" && forall c :: c in s ==> c != '@' && !IsSpace(c) }

  /** `local@head.tail`, white space around it aside. */
  ghost predicate LooksMailable(argument: string) {
    exists local, head, tail :: IsPiece(local) && IsPiece(head) && IsPiece(tail)
                                && Strip(argument) == local + "@" + head + "." + tail
  }

  ghost predicate RuleAcceptable(r: Rule, py: Conversions) {
    && r.conditions != [] && r.actions != []
    && (forall c :: c in r.conditions ==> Acceptable(c, py))
    && (forall a :: a in r.actions && a.0 == ActRedirect ==> LooksMailable(a.1))
  }

  // ----- in what order rules run

  /** Python's order of strings: by the first character that differs, a proper prefix
      first. */
  ghost predicate NameBefore(a: string, b: string) {
    exists k: nat :: k <= |a| && k < |b| && a[..k] == b[..k] && (k == |a| || a[k] < b[k])
  }

  ghost predicate RunsBefore(rules: seq<Rule>, i: nat, j: nat) {
    && i < |rules| && j < |rules|
    && (rules[i].priority < rules[j].priority ||
        (rules[i].priority == rules[j].priority &&
         (NameBefore(rules[i].name, rules[j].name) || (rules[i].name == rules[j].name && i < j))))
  }

  /** The active rules by (priority, name), ties in input order. */
  ghost predicate IsOrder(rules: seq<Rule>, order: seq<nat>) {
    && (forall i: nat :: i in order <==> i < |rules| && rules[i].isActive)
    && (forall a, b :: 0 <= a < b < |order| ==> RunsBefore(rules, order[a], order[b]))
  }

  // ----- what a rule means

  /** A header value against an operator; letter case is ignored throughout. */
  ghost predicate ValueHolds(op: Operator, wanted: string, value: string) {
    var w, v := Lower(wanted), Lower(value);
    match op
    case Equals => v == w
    case ContainsOp => Contains(v, w)
    case StartsWith => w <= v
    case EndsWith => HasSuffix(v, w)
    case MatchesOp => GlobMatch(w, v)
    case _ => false
  }

  ghost predicate SomeHeader(m: Message, name: string, op: Operator, wanted: string) {
    exists h :: h in m.headers && HasName(h, name) && ValueHolds(op, wanted, h.1)
  }

  /** What a score reads as against what a limit reads as. */
  predicate ScorePasses(op: Operator, limit: string, score: string) {
    if op == GreaterThan then NumeralLess(LeadingNumber(limit), LeadingNumber(score))
    else NumeralLess(LeadingNumber(score), LeadingNumber(limit))
  }

  ghost predicate SomeScore(m: Message, op: Operator, limit: string) {
    exists h :: h in m.headers && HasName(h, "X-Spam-Score") && ScorePasses(op, limit, h.1)
  }

  ghost predicate Holds(c: Condition, m: Message, py: Conversions) {
    match c.field
    case From => SomeHeader(m, "from", c.op, c.value)
    case To => SomeHeader(m, "to", c.op, c.value)
    case Cc => SomeHeader(m, "cc", c.op, c.value)
    case Subject => SomeHeader(m, "subject", c.op, c.value)
    case HeaderField => c.header.Some? && SomeHeader(m, c.header.value, c.op, c.value)
    case Body => ValueHolds(c.op, c.value, m.body)
    case SizeField =>
      py.asInt(c.value).Some? &&
      (if c.op == GreaterThan then m.size > py.asInt(c.value).value else m.size < py.asInt(c.value).value)
    case SpamScore => SomeScore(m, c.op, c.value)
    case Attachment =>
      (c.value != "" && c.value != "0" && Lower(c.value) != "no" && Lower(c.value) != "false") <==>
        SomeHeader(m, "X-Lightr-Has-Attachment", Equals, "yes")
    case SpfResult => SomeHeader(m, "Authentication-Results", ContainsOp, "spf=" + c.value)
    case DkimResult => SomeHeader(m, "Authentication-Results", ContainsOp, "dkim=" + c.value)
    case DmarcResult => SomeHeader(m, "Authentication-Results", ContainsOp, "dmarc=" + c.value)
  }

  ghost predicate RuleHolds(r: Rule, m: Message, py: Conversions) {
    if r.matchType == All
    then forall c :: c in r.conditions ==> Holds(c, m, py)
    else exists c :: c in r.conditions && Holds(c, m, py)
  }

  function EventOf(action: Action, argument: string): Event
    requires action != ActStop
  {
    match action
    case ActFileInto => Filed(if argument == "" then "INBOX" else argument)
    case ActDiscard => Discarded
    case ActReject => Rejected(if argument == "" then "Message rejected by policy" else argument)
    case ActRedirect => Redirected(argument)
    case ActMarkRead => FlagsSet("\\Seen")
    case ActFlag => FlagsAdded("\\Flagged")
  }

  /** A matching rule's actions, up to an explicit stop. */
  function ActionEvents(acts: seq<(Action, string)>): seq<Event> {
    if acts == [] || acts[0].0 == ActStop then []
    else [EventOf(acts[0].0, acts[0].1)] + ActionEvents(acts[1..])
  }

  /** Rules in order: each matching rule acts, and one that stops ends the run. */
  ghost function DirectRun(rules: seq<Rule>, m: Message, py: Conversions): seq<Event> {
    if rules == [] then []
    else if !RuleHolds(rules[0], m, py) then DirectRun(rules[1..], m, py)
    else if rules[0].stopOnMatch || HasStop(rules[0].actions) then ActionEvents(rules[0].actions)
    else ActionEvents(rules[0].actions) + DirectRun(rules[1..], m, py)
  }
}
