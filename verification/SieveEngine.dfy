/** The fragment of Sieve (RFC 5228, 5173, 5229-5232, 5429, 5490) that generated
    scripts use: a lexer and parser from script text to commands, and an
    interpreter for those commands. */
module SieveEngine {
  import opened Text
  import opened SieveStrings

  // ----- words of the language

  datatype Keyword =
    | KRequire | KIf | KHeader | KBody | KSize | KNot | KAllOf | KAnyOf
    | KFileInto | KDiscard | KReject | KRedirect | KSetFlag | KAddFlag | KStop
    | KIs | KContains | KMatches | KValue | KComparator | KText | KOver | KUnder | KCreate
    | KUnknown

  function Spell(k: Keyword): string {
    match k
    case KRequire => "require" case KIf => "if" case KHeader => "header" case KBody => "body"
    case KSize => "size" case KNot => "not" case KAllOf => "allof" case KAnyOf => "anyof"
    case KFileInto => "fileinto" case KDiscard => "discard" case KReject => "reject"
    case KRedirect => "redirect" case KSetFlag => "setflag" case KAddFlag => "addflag"
    case KStop => "stop" case KIs => "is" case KContains => "contains" case KMatches => "matches"
    case KValue => "value" case KComparator => "comparator" case KText => "text"
    case KOver => "over" case KUnder => "under" case KCreate => "create" case KUnknown => ""
  }

  const KEYWORDS := [KRequire, KIf, KHeader, KBody, KSize, KNot, KAllOf, KAnyOf,
                     KFileInto, KDiscard, KReject, KRedirect, KSetFlag, KAddFlag, KStop,
                     KIs, KContains, KMatches, KValue, KComparator, KText, KOver, KUnder, KCreate]

  function FindKeyword(w: string, ks: seq<Keyword>): Keyword {
    if ks == [] then KUnknown else if Spell(ks[0]) == w then ks[0] else FindKeyword(w, ks[1..])
  }

  predicate IsWord(w: string) {
    w != "" && IsLetter(w[0]) && forall i :: 0 <= i < |w| ==> IsWordChar(w[i])
  }

  predicate IsWordChar(c: char) { IsLetter(c) || IsDigit(c) }

  function Fingerprint(w: string): (nat, char, char) {
    (|w|, if |w| > 0 then w[0] else ' ', if |w| > 1 then w[1] else ' ')
  }

  lemma {:induction false} SpellInjective(j: Keyword, k: Keyword)
    requires Spell(j) == Spell(k)
    ensures j == k
  {
    assert Fingerprint(Spell(j)) == Fingerprint(Spell(k));
  }

  lemma {:induction false} SpellIsWord(k: Keyword)
    requires k != KUnknown
    ensures IsWord(Spell(k))
  {
  }

  lemma {:induction false} FindSpelled(k: Keyword, ks: seq<Keyword>)
    requires k in ks
    ensures FindKeyword(Spell(k), ks) == k
  {
    if Spell(ks[0]) == Spell(k) {
      SpellInjective(ks[0], k);
    } else {
      FindSpelled(k, ks[1..]);
    }
  }

  lemma {:induction false} KeywordListed(k: Keyword)
    requires k != KUnknown
    ensures k in KEYWORDS
  {
    var i := match k
      case KRequire => 0 case KIf => 1 case KHeader => 2 case KBody => 3 case KSize => 4
      case KNot => 5 case KAllOf => 6 case KAnyOf => 7 case KFileInto => 8 case KDiscard => 9
      case KReject => 10 case KRedirect => 11 case KSetFlag => 12 case KAddFlag => 13
      case KStop => 14 case KIs => 15 case KContains => 16 case KMatches => 17 case KValue => 18
      case KComparator => 19 case KText => 20 case KOver => 21 case KUnder => 22 case KCreate => 23;
    assert KEYWORDS[i] == k;
  }

  lemma {:induction false} KeywordRoundTrip(k: Keyword)
    requires k != KUnknown
    ensures FindKeyword(Spell(k), KEYWORDS) == k
  {
    KeywordListed(k);
    FindSpelled(k, KEYWORDS);
  }

  // ----- lexer

  datatype Token = Word(k: Keyword) | Tag(k: Keyword) | Num(n: nat) | Str(s: string) | Punct(c: char)

  function WordLen(s: string): (n: nat)
    ensures n <= |s| && (forall i :: 0 <= i < n ==> IsWordChar(s[i]))
    ensures n < |s| ==> !IsWordChar(s[n])
  {
    if s != "" && IsWordChar(s[0]) then 1 + WordLen(s[1..]) else 0
  }

  function DigitLen(s: string): (n: nat)
    ensures n <= |s| && (forall i :: 0 <= i < n ==> IsDigit(s[i]))
    ensures n < |s| ==> !IsDigit(s[n])
  {
    if s != "" && IsDigit(s[0]) then 1 + DigitLen(s[1..]) else 0
  }

  function AfterLine(s: string): (r: string)
    ensures |r| <= |s|
  {
    if s == "" then "" else if s[0] == '\n' then s[1..] else AfterLine(s[1..])
  }

  predicate IsBlank(c: char) { c in " \t\r\n" }
  predicate IsPunct(c: char) { c in "{}()[],;" }

  function Push(t: Token, r: Option<seq<Token>>): Option<seq<Token>> {
    match r case None => None case Some(ts) => Some([t] + ts)
  }

  /** The tokens of a script, or None when some character starts no token. */
  function Lex(s: string): Option<seq<Token>>
    decreases |s|
  {
    if s == "" then Some([])
    else if IsBlank(s[0]) then Lex(s[1..])
    else if s[0] == '#' then Lex(AfterLine(s[1..]))
    else if s[0] == '"' then
      (match LexQuoted(s[1..])
       case None => None
       case Some((v, rest)) => Push(Str(v), Lex(rest)))
    else if s[0] == ':' then
      var n := WordLen(s[1..]);
      if n == 0 then None else Push(Tag(FindKeyword(s[1..][..n], KEYWORDS)), Lex(s[1..][n..]))
    else if IsDigit(s[0]) then
      var n := DigitLen(s);
      Push(Num(Number(s[..n])), Lex(s[n..]))
    else if IsLetter(s[0]) then
      var n := WordLen(s);
      Push(Word(FindKeyword(s[..n], KEYWORDS)), Lex(s[n..]))
    else if IsPunct(s[0]) then Push(Punct(s[0]), Lex(s[1..]))
    else None
  }

  // ----- commands and tests

  datatype HeaderMatch = HIs | HContains | HMatches

  datatype Test =
    | Header(how: HeaderMatch, name: string, key: string)
    | Numeric(greater: bool, name: string, key: string)
    | BodyText(matches: bool, key: string)
    | Size(over: bool, limit: int)
    | Not(test: Test)
    | AllOf(tests: seq<Test>)
    | AnyOf(tests: seq<Test>)

  datatype Command =
    | If(test: Test, block: seq<Command>)
    | FileInto(folder: string)
    | Discard
    | Reject(reason: string)
    | Redirect(address: string)
    | SetFlag(flag: string)
    | AddFlag(flag: string)
    | Stop

  datatype Script = Script(requires_: seq<string>, commands: seq<Command>)

  // ----- parser

  predicate At(ts: seq<Token>, i: nat, t: Token) { i < |ts| && ts[i] == t }
  predicate StrAt(ts: seq<Token>, i: nat) { i < |ts| && ts[i].Str? }

  function ParseHeader(ts: seq<Token>): (r: Option<(Test, seq<Token>)>)
    ensures r.Some? ==> |r.value.1| < |ts|
  {
    if |ts| >= 3 && ts[0].Tag? && ts[0].k in {KIs, KContains, KMatches} && StrAt(ts, 1) && StrAt(ts, 2) then
      var how := if ts[0].k == KIs then HIs else if ts[0].k == KContains then HContains else HMatches;
      Some((Header(how, ts[1].s, ts[2].s), ts[3..]))
    else if |ts| >= 6 && ts[0] == Tag(KValue) && StrAt(ts, 1) && (ts[1].s == "gt" || ts[1].s == "lt")
            && ts[2] == Tag(KComparator) && ts[3] == Str("i;ascii-numeric")
            && StrAt(ts, 4) && StrAt(ts, 5) then
      Some((Numeric(ts[1].s == "gt", ts[4].s, ts[5].s), ts[6..]))
    else None
  }

  function ParseBody(ts: seq<Token>): (r: Option<(Test, seq<Token>)>)
    ensures r.Some? ==> |r.value.1| < |ts|
  {
    if |ts| >= 3 && ts[0] == Tag(KText) && ts[1].Tag? && ts[1].k in {KContains, KMatches} && ts[2].Str?
    then Some((BodyText(ts[1].k == KMatches, ts[2].s), ts[3..])) else None
  }

  function ParseSize(ts: seq<Token>): (r: Option<(Test, seq<Token>)>)
    ensures r.Some? ==> |r.value.1| < |ts|
  {
    if |ts| >= 2 && ts[0].Tag? && ts[0].k in {KOver, KUnder} && ts[1].Num?
    then Some((Size(ts[0].k == KOver, ts[1].n), ts[2..])) else None
  }

  /** A test that holds no other test. */
  function ParseBasic(ts: seq<Token>): (r: Option<(Test, seq<Token>)>)
    ensures r.Some? ==> |r.value.1| < |ts|
  {
    if ts == [] then None
    else if ts[0] == Word(KHeader) then ParseHeader(ts[1..])
    else if ts[0] == Word(KBody) then ParseBody(ts[1..])
    else if ts[0] == Word(KSize) then ParseSize(ts[1..])
    else None
  }

  function ParseTest(ts: seq<Token>): (r: Option<(Test, seq<Token>)>)
    ensures r.Some? ==> |r.value.1| < |ts|
    decreases |ts|, 0
  {
    if At(ts, 0, Word(KNot)) then
      match ParseTest(ts[1..])
      case None => None
      case Some((t, rest)) => Some((Not(t), rest))
    else if (At(ts, 0, Word(KAllOf)) || At(ts, 0, Word(KAnyOf))) && At(ts, 1, Punct('(')) then
      match ParseTests(ts[2..])
      case None => None
      case Some((tests, rest)) =>
        Some((if ts[0] == Word(KAllOf) then AllOf(tests) else AnyOf(tests), rest))
    else ParseBasic(ts)
  }

  /** `test *("," test) ")"` */
  function ParseTests(ts: seq<Token>): (r: Option<(seq<Test>, seq<Token>)>)
    ensures r.Some? ==> |r.value.1| < |ts|
    decreases |ts|, 1
  {
    match ParseTest(ts)
    case None => None
    case Some((t, rest)) =>
      if At(rest, 0, Punct(')')) then Some(([t], rest[1..]))
      else if At(rest, 0, Punct(',')) then
        match ParseTests(rest[1..])
        case None => None
        case Some((more, rest')) => Some(([t] + more, rest'))
      else None
  }

  function ParseCommand(ts: seq<Token>): (r: Option<(Command, seq<Token>)>)
    ensures r.Some? ==> |r.value.1| < |ts|
    decreases |ts|, 0
  {
    if ts == [] || !ts[0].Word? then None
    else if ts[0].k == KIf then
      match ParseTest(ts[1..])
      case None => None
      case Some((test, rest)) =>
        if !At(rest, 0, Punct('{')) then None
        else
          match ParseCommands(rest[1..])
          case None => None
          case Some((block, rest')) =>
            if At(rest', 0, Punct('}')) then Some((If(test, block), rest'[1..])) else None
    else if ts[0].k == KFileInto then
      if At(ts, 1, Tag(KCreate)) && StrAt(ts, 2) && At(ts, 3, Punct(';'))
      then Some((FileInto(ts[2].s), ts[4..])) else None
    else if ts[0].k == KDiscard then
      if At(ts, 1, Punct(';')) then Some((Discard, ts[2..])) else None
    else if ts[0].k == KStop then
      if At(ts, 1, Punct(';')) then Some((Stop, ts[2..])) else None
    else if StrAt(ts, 1) && At(ts, 2, Punct(';')) then
      if ts[0].k == KReject then Some((Reject(ts[1].s), ts[3..]))
      else if ts[0].k == KRedirect then Some((Redirect(ts[1].s), ts[3..]))
      else if ts[0].k == KSetFlag then Some((SetFlag(ts[1].s), ts[3..]))
      else if ts[0].k == KAddFlag then Some((AddFlag(ts[1].s), ts[3..]))
      else None
    else None
  }

  /** Commands up to a closing brace or the end of the script. */
  function ParseCommands(ts: seq<Token>): (r: Option<(seq<Command>, seq<Token>)>)
    ensures r.Some? ==> |r.value.1| <= |ts|
    decreases |ts|, 1
  {
    if ts == [] || ts[0] == Punct('}') then Some(([], ts))
    else
      match ParseCommand(ts)
      case None => None
      case Some((c, rest)) =>
        match ParseCommands(rest)
        case None => None
        case Some((more, rest')) => Some(([c] + more, rest'))
  }

  /** `string *("," string) "]" ";"` */
  function ParseNames(ts: seq<Token>): (r: Option<(seq<string>, seq<Token>)>)
    ensures r.Some? ==> |r.value.1| < |ts|
  {
    if !StrAt(ts, 0) then None
    else if At(ts, 1, Punct(']')) && At(ts, 2, Punct(';')) then Some(([ts[0].s], ts[3..]))
    else if At(ts, 1, Punct(',')) then
      match ParseNames(ts[2..])
      case None => None
      case Some((more, rest)) => Some(([ts[0].s] + more, rest))
    else None
  }

  function ParseScript(ts: seq<Token>): Option<Script> {
    var names :=
      if At(ts, 0, Word(KRequire))
      then (if At(ts, 1, Punct('[')) then ParseNames(ts[2..]) else None)
      else Some(([], ts));
    match names
    case None => None
    case Some((exts, rest)) =>
      match ParseCommands(rest)
      case None => None
      case Some((commands, rest')) => if rest' == [] then Some(Script(exts, commands)) else None
  }

  // ----- extensions a script uses (RFC 5228 section 3.2)

  function TestNeeds(t: Test): set<string> {
    match t
    case Numeric(_, _, _) => {"relational", "comparator-i;ascii-numeric"}
    case BodyText(_, _) => {"body"}
    case Not(u) => TestNeeds(u)
    case AllOf(ts) => set u, e | u in ts && e in TestNeeds(u) :: e
    case AnyOf(ts) => set u, e | u in ts && e in TestNeeds(u) :: e
    case _ => {}
  }

  function CommandNeeds(c: Command): set<string> {
    match c
    case If(t, block) => TestNeeds(t) + set d, e | d in block && e in CommandNeeds(d) :: e
    case FileInto(_) => {"fileinto", "mailbox"}
    case Reject(_) => {"reject"}
    case SetFlag(_) => {"imap4flags"}
    case AddFlag(_) => {"imap4flags"}
    case _ => {}
  }

  function Needs(cs: seq<Command>): set<string> {
    set c, e | c in cs && e in CommandNeeds(c) :: e
  }

  // ----- interpreter

  /** What a script can see of a message. Header values arrive with surrounding
      white space removed, as a header test compares them. */
  datatype Message = Message(headers: seq<(string, string)>, body: string, size: nat)

  /** What a script does to a message, in order. */
  datatype Event =
    | Filed(folder: string)
    | Discarded
    | Rejected(reason: string)
    | Redirected(address: string)
    | FlagsSet(flag: string)
    | FlagsAdded(flag: string)

  /** `i;ascii-numeric` (RFC 4790 section 9.1): the leading digits, or positive
      infinity when there are none. */
  datatype Numeral = Finite(n: nat) | Infinite

  function LeadingNumber(s: string): Numeral {
    var n := DigitLen(s);
    if n == 0 then Infinite else Finite(Number(s[..n]))
  }

  predicate NumeralLess(a: Numeral, b: Numeral) {
    a.Finite? && (b.Infinite? || a.n < b.n)
  }

  predicate OccursAt(s: string, part: string, i: nat)
    requires i + |part| <= |s|
  {
    s[i..i + |part|] == part
  }

  predicate Contains(s: string, part: string) {
    exists i | 0 <= i <= |s| - |part| :: OccursAt(s, part, i)
  }

  predicate HasName(h: (string, string), name: string) { Lower(h.0) == Lower(name) }

  /** A header value against a key under the default comparator
      `i;ascii-casemap`. */
  predicate HeaderMatches(how: HeaderMatch, key: string, value: string) {
    match how
    case HIs => Lower(value) == Lower(key)
    case HContains => Contains(Lower(value), Lower(key))
    case HMatches => GlobMatch(Lower(key), Lower(value))
  }

  predicate EvalTest(t: Test, m: Message) {
    match t
    case Header(how, name, key) =>
      exists h | h in m.headers :: HasName(h, name) && HeaderMatches(how, key, h.1)
    case Numeric(greater, name, key) =>
      exists h | h in m.headers :: HasName(h, name) &&
        (if greater then NumeralLess(LeadingNumber(key), LeadingNumber(h.1))
         else NumeralLess(LeadingNumber(h.1), LeadingNumber(key)))
    case BodyText(matches, key) =>
      if matches then GlobMatch(Lower(key), Lower(m.body)) else Contains(Lower(m.body), Lower(key))
    case Size(over, limit) => if over then m.size > limit else m.size < limit
    case Not(u) => !EvalTest(u, m)
    case AllOf(ts) => forall u | u in ts :: EvalTest(u, m)
    case AnyOf(ts) => exists u | u in ts :: EvalTest(u, m)
  }

  datatype Outcome = Outcome(events: seq<Event>, stopped: bool)

  function RunCommand(c: Command, m: Message): Outcome
    decreases c, 1
  {
    match c
    case If(t, block) => if EvalTest(t, m) then RunCommands(block, m) else Outcome([], false)
    case FileInto(f) => Outcome([Filed(f)], false)
    case Discard => Outcome([Discarded], false)
    case Reject(r) => Outcome([Rejected(r)], false)
    case Redirect(a) => Outcome([Redirected(a)], false)
    case SetFlag(f) => Outcome([FlagsSet(f)], false)
    case AddFlag(f) => Outcome([FlagsAdded(f)], false)
    case Stop => Outcome([], true)
  }

  function RunCommands(cs: seq<Command>, m: Message): Outcome
    decreases cs, 0
  {
    if cs == [] then Outcome([], false)
    else
      var first := RunCommand(cs[0], m);
      if first.stopped then first
      else var rest := RunCommands(cs[1..], m); Outcome(first.events + rest.events, rest.stopped)
  }

  /** The script an engine loads from text: it must lex, parse, and declare every
      extension it uses. */
  function Load(text: string): Option<Script> {
    match Lex(text)
    case None => None
    case Some(ts) =>
      match ParseScript(ts)
      case None => None
      case Some(script) =>
        if Needs(script.commands) <= (set e | e in script.requires_) then Some(script) else None
  }

  /** Everything the engine does with a message; None when it refuses the script. */
  function RunText(text: string, m: Message): Option<seq<Event>> {
    match Load(text)
    case None => None
    case Some(script) => Some(RunCommands(script.commands, m).events)
  }
}
