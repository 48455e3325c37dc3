/** IMAP THREAD responses: flattening the nested wire form into conversations
    (src/lightr/dovecot/aioimap.py) and paging them (src/lightr/dovecot/mailbox.py). */
module Threads {
  import opened Text

  // ----- what a server prints

  /** A message and its replies. A message the server knows only by reference has no
      UID. */
  datatype Tree = Tree(uid: Option<nat>, replies: seq<Tree>)

  /** RFC 5256 section 4: a message, then its only reply after a space, or its
      several replies in parentheses. */
  function Members(t: Tree): string
    decreases t, 2
  {
    match t.uid
    case None => Nested(t.replies)
    case Some(n) => Decimal(n) + (if t.replies == [] then "" else " " + Nested(t.replies))
  }

  function Nested(replies: seq<Tree>): string
    decreases replies, 1
  {
    if |replies| == 1 then Members(replies[0]) else Groups(replies)
  }

  /** A forest as a server prints it: each tree in parentheses. */
  function Groups(forest: seq<Tree>): string
    decreases forest, 0
  {
    if forest == [] then "" else "(" + Members(forest[0]) + ")" + Groups(forest[1..])
  }

  /** The messages of a conversation, each before its replies. */
  function Preorder(t: Tree): seq<nat>
    decreases t
  {
    (match t.uid case None => [] case Some(n) => [n]) + PreorderAll(t.replies)
  }

  function PreorderAll(forest: seq<Tree>): seq<nat>
    decreases forest
  {
    if forest == [] then [] else Preorder(forest[0]) + PreorderAll(forest[1..])
  }

  /** One list for each conversation that has a message. */
  function Conversations(forest: seq<Tree>): seq<seq<nat>>
    decreases forest
  {
    if forest == [] then []
    else (if Preorder(forest[0]) == [] then [] else [Preorder(forest[0])]) + Conversations(forest[1..])
  }

  // ----- the parser

  type Digits = s: string | forall i :: 0 <= i < |s| ==> IsDigit(s[i])

  /** The local variables of `_parse_threads`. */
  datatype Scanner = Scanner(depth: nat, digits: Digits, current: seq<nat>, threads: seq<seq<nat>>)

  function Flush(st: Scanner): Scanner {
    if st.digits == "" then st else st.(current := st.current + [Number(st.digits)], digits := "")
  }

  function Close(st: Scanner): Scanner {
    var depth := if st.depth == 0 then 0 else st.depth - 1;
    if depth == 0 && st.current != [] then Scanner(0, st.digits, [], st.threads + [st.current])
    else st.(depth := depth)
  }

  function Step(st: Scanner, c: char): Scanner {
    if IsDigit(c) then st.(digits := st.digits + [c])
    else
      var st' := Flush(st);
      if c == '(' then st'.(depth := st'.depth + 1) else if c == ')' then Close(st') else st'
  }

  function Scan(st: Scanner, text: string): Scanner
    decreases |text|
  {
    if text == "" then st else Scan(Step(st, text[0]), text[1..])
  }

  function Finish(st: Scanner): seq<seq<nat>> {
    var st' := Flush(st);
    if st'.current == [] then st'.threads else st'.threads + [st'.current]
  }

  /** The part of a response line that can hold threads, or "" for commentary. */
  function Body(line: string): string { OnlyThreads(Unnamed(Strip(line))) }

  /** The text without the response's name. */
  function Unnamed(text: string): string { if "thread" <= Lower(text) then StripLeft(text[6..]) else text }

  function OnlyThreads(text: string): string { if text != "" && text[0] == '(' then text else "" }

  /** One more line of the response. */
  function ReadLine(threads: seq<seq<nat>>, line: string): seq<seq<nat>> {
    Finish(Scan(Scanner(0, "", [], threads), Body(line)))
  }

  function ReadLines(lines: seq<string>): seq<seq<nat>> {
    if lines == [] then [] else ReadLine(ReadLines(lines[..|lines| - 1]), lines[|lines| - 1])
  }

  /** `_parse_threads` on the text of one line: one pass over its characters. */
  method ParseText(text: string, before: seq<seq<nat>>) returns (threads: seq<seq<nat>>)
    ensures threads == Finish(Scan(Scanner(0, "", [], before), text))
  {
    hide Scan, Number, IsDigit;
    threads := before;
    var depth, current: seq<nat>, digits: Digits := 0, [], "";
    assert text[0..] == text;
    for k := 0 to |text|
      invariant depth >= 0
      invariant Scan(Scanner(depth, digits, current, threads), text[k..]) == Scan(Scanner(0, "", [], before), text)
    {
      var c := text[k];
      ScanNext(Scanner(depth, digits, current, threads), text, k);
      if IsDigit(c) {
        digits := digits + [c];
      } else {
        if digits != "" {
          current := current + [Number(digits)];
          digits := "";
        }
        if c == '(' {
          depth := depth + 1;
        } else if c == ')' {
          depth := if depth == 0 then 0 else depth - 1;
          if depth == 0 && current != [] {
            threads := threads + [current];
            current := [];
          }
        }
      }
    }
    ScanNothing(Scanner(depth, digits, current, threads));
    assert text[|text|..] == "";
    if digits != "" {
      current := current + [Number(digits)];
    }
    if current != [] {
      threads := threads + [current];
    }
  }

  /** `_parse_threads`: lines of commentary are skipped. */
  method ParseThreads(lines: seq<string>) returns (threads: seq<seq<nat>>)
    ensures threads == ReadLines(lines)
  {
    hide Strip, StripLeft, Lower, Scan, Finish;
    threads := [];
    for n := 0 to |lines|
      invariant threads == ReadLines(lines[..n])
    {
      assert lines[..n + 1][..n] == lines[..n];
      var text := Strip(lines[n]);
      if "thread" <= Lower(text) {
        text := StripLeft(text[6..]);
      }
      if text != "" && text[0] == '(' {
        threads := ParseText(text, threads);
      } else {
        NoText(threads);
      }
    }
    assert lines[..|lines|] == lines;
  }

  lemma {:induction false} NoText(threads: seq<seq<nat>>)
    ensures Finish(Scan(Scanner(0, "", [], threads), "")) == threads
  {
  }

  lemma {:induction false} ScanNext(st: Scanner, text: string, k: nat)
    requires k < |text|
    ensures Scan(st, text[k..]) == Scan(Step(st, text[k]), text[k + 1..])
  {
    assert text[k..][1..] == text[k + 1..];
  }

  lemma {:induction false} ScanNothing(st: Scanner)
    ensures Scan(st, "") == st
  {
  }

  // ----- parsing what was printed

  lemma {:induction false} ScanConcat(st: Scanner, a: string, b: string)
    ensures Scan(st, a + b) == Scan(Scan(st, a), b)
    decreases |a|
  {
    if a == "" {
      assert a + b == b;
    } else {
      assert (a + b)[1..] == a[1..] + b;
      ScanConcat(Step(st, a[0]), a[1..], b);
    }
  }

  lemma {:induction false} ScanDigits(st: Scanner, digits: Digits)
    ensures Scan(st, digits) == st.(digits := st.digits + digits)
    decreases |digits|
  {
    if digits != "" {
      assert IsDigit(digits[0]);
      ScanDigits(st.(digits := st.digits + [digits[0]]), digits[1..]);
      assert st.digits + [digits[0]] + digits[1..] == st.digits + digits;
    } else {
      assert st.digits + digits == st.digits;
    }
  }

  /** A character that is not a digit sees only the flushed state. */
  lemma {:induction false} ScanBreak(st: Scanner, c: char, rest: string)
    requires !IsDigit(c)
    ensures Scan(st, [c] + rest) == Scan(Step(Flush(st), c), rest)
  {
    assert ([c] + rest)[1..] == rest;
  }

  lemma {:induction false} MembersOf(t: Tree, n: nat)
    requires t.uid == Some(n)
    ensures Members(t) == if t.replies == [] then Decimal(n) else Decimal(n) + ([' '] + Nested(t.replies))
  {
    hide Nested, Decimal;
  }

  /** A printed number, at the end or before a space. */
  lemma {:induction false} ScanNumber(st: Scanner, n: nat, rest: string)
    requires st.digits == ""
    ensures var st' := st.(current := st.current + [n]);
            && Flush(Scan(st, Decimal(n))) == st'
            && Scan(st, Decimal(n) + ([' '] + rest)) == Scan(st', rest)
  {
    NumberOfDecimal(n);
    ScanDigits(st, Decimal(n));
    assert "" + Decimal(n) == Decimal(n);
    hide Scan, Decimal;
    ScanConcat(st, Decimal(n), [' '] + rest);
    ScanBreak(Scan(st, Decimal(n)), ' ', rest);
  }

  /** Inside parentheses, a printed message adds itself and its replies to the
      current conversation. */
  lemma {:induction false} ScanMembers(st: Scanner, t: Tree)
    requires st.digits == "" && st.depth >= 1
    ensures Flush(Scan(st, Members(t))) == st.(current := st.current + Preorder(t))
    decreases t, 2
  {
    hide Nested, Scan, Decimal, Flush;
    match t.uid
    case None =>
      ScanNested(st, t.replies);
      assert Preorder(t) == PreorderAll(t.replies);
    case Some(n) =>
      MembersOf(t, n);
      hide Members;
      ScanNumber(st, n, Nested(t.replies));
      if t.replies == [] {
        assert Preorder(t) == [n];
      } else {
        ScanNested(st.(current := st.current + [n]), t.replies);
        assert st.current + [n] + PreorderAll(t.replies) == st.current + Preorder(t);
      }
  }

  lemma {:induction false} ScanNested(st: Scanner, replies: seq<Tree>)
    requires st.digits == "" && st.depth >= 1
    ensures Flush(Scan(st, Nested(replies))) == st.(current := st.current + PreorderAll(replies))
    decreases replies, 1
  {
    if |replies| == 1 {
      ScanMembers(st, replies[0]);
      assert PreorderAll(replies) == Preorder(replies[0]) + PreorderAll([]);
    } else {
      ScanGroups(st, replies);
    }
  }

  /** One tree in parentheses. */
  lemma {:induction false} ScanGroup(st: Scanner, t: Tree, rest: string)
    requires st.digits == ""
    ensures Scan(st, "(" + Members(t) + ")" + rest)
         == Scan(Close(st.(depth := st.depth + 1, current := st.current + Preorder(t))), rest)
    decreases t, 3
  {
    var open := st.(depth := st.depth + 1);
    assert "(" + Members(t) + ")" + rest == ['('] + (Members(t) + ([')'] + rest));
    ScanBreak(st, '(', Members(t) + ([')'] + rest));
    ScanConcat(open, Members(t), [')'] + rest);
    ScanBreak(Scan(open, Members(t)), ')', rest);
    ScanMembers(open, t);
  }

  lemma {:induction false} ScanGroups(st: Scanner, forest: seq<Tree>)
    requires st.digits == "" && st.depth >= 1
    ensures Scan(st, Groups(forest)) == st.(current := st.current + PreorderAll(forest))
    decreases forest, 0
  {
    if forest == [] {
      assert st.current + [] == st.current;
    } else {
      ScanGroup(st, forest[0], Groups(forest[1..]));
      var st' := st.(current := st.current + Preorder(forest[0]));
      ScanGroups(st', forest[1..]);
      assert st.current + Preorder(forest[0]) + PreorderAll(forest[1..]) == st.current + PreorderAll(forest);
    }
  }

  lemma {:induction false} ScanForest(threads: seq<seq<nat>>, forest: seq<Tree>)
    ensures Scan(Scanner(0, "", [], threads), Groups(forest)) == Scanner(0, "", [], threads + Conversations(forest))
    decreases forest
  {
    hide *;
    ForestUnfold(forest);
    if forest == [] {
      assert threads + [] == threads;
      ScanNothing(Scanner(0, "", [], threads));
    } else {
      var t, rest := forest[0], forest[1..];
      var first := if Preorder(t) == [] then [] else [Preorder(t)];
      ScanTree(threads, t, Groups(rest));
      assert threads + [] == threads;
      ScanForest(threads + first, rest);
      assert threads + first + Conversations(rest) == threads + (first + Conversations(rest));
    }
  }

  lemma {:induction false} ForestUnfold(forest: seq<Tree>)
    ensures forest == [] ==> Groups(forest) == "" && Conversations(forest) == []
    ensures forest != [] ==>
              && Groups(forest) == "(" + Members(forest[0]) + ")" + Groups(forest[1..])
              && Conversations(forest)
                 == (if Preorder(forest[0]) == [] then [] else [Preorder(forest[0])]) + Conversations(forest[1..])
  {
    hide Members, Preorder;
  }

  lemma {:induction false} ScanTree(threads: seq<seq<nat>>, t: Tree, rest: string)
    ensures Scan(Scanner(0, "", [], threads), "(" + Members(t) + ")" + rest)
         == Scan(Scanner(0, "", [], if Preorder(t) == [] then threads else threads + [Preorder(t)]), rest)
  {
    hide Scan, Members, Preorder;
    ScanGroup(Scanner(0, "", [], threads), t, rest);
    assert [] + Preorder(t) == Preorder(t);
  }

  lemma {:induction false} GroupsEnds(forest: seq<Tree>)
    requires forest != []
    ensures Groups(forest) != "" && Groups(forest)[0] == '('
    ensures Groups(forest)[|Groups(forest)| - 1] == ')'
    decreases forest
  {
    if |forest| > 1 { GroupsEnds(forest[1..]); }
  }

  lemma {:induction false} BodyOfGroups(forest: seq<Tree>)
    ensures Body(Groups(forest)) == Groups(forest)
    ensures Body("THREAD " + Groups(forest)) == Groups(forest)
  {
    var text := Groups(forest);
    assert forest == [] ==> text == "";
    hide Groups;
    if forest == [] {
      assert "THREAD " + text == "THREAD ";
      BlankThread();
    } else {
      GroupsEnds(forest);
      BodyOfText(text);
    }
  }

  lemma {:induction false} LowerName(rest: string)
    ensures "thread" <= Lower("THREAD" + rest)
  {
    assert Lower("THREAD" + rest)[..6] == "thread";
  }

  lemma {:induction false} Spaces()
    ensures IsSpace(' ') && !IsSpace('T') && !IsSpace('D') && !IsSpace('(') && !IsSpace(')')
  {
  }

  lemma {:induction false} BlankThread()
    ensures Body("") == "" && Body("THREAD ") == ""
  {
    hide Strip, StripLeft, Lower, Unnamed;
    StripName();
    UnnamedName("");
    NameAlone();
    EmptyTail();
  }

  lemma {:induction false} NameAlone()
    ensures "THREAD" + "" == "THREAD" && Unnamed("") == ""
  {
  }

  lemma {:induction false} EmptyTail()
    ensures "THREAD"[6..] == "" && StripLeft("") == ""
  {
  }

  lemma {:induction false} StripName()
    ensures Strip("") == "" && Strip("THREAD ") == "THREAD"
  {
    Spaces();
    hide IsSpace;
    var s := "THREAD ";
    assert StripLeft(s) == s;
    assert s[..6] == "THREAD";
    assert StripRight("THREAD") == "THREAD";
  }

  /** Text that neither starts nor ends in white space. */
  lemma {:induction false} StripNothing(s: string)
    requires s != "" && !IsSpace(s[0]) && !IsSpace(s[|s| - 1])
    ensures Strip(s) == s && StripLeft(" " + s) == s
  {
    Spaces();
    hide IsSpace;
    assert (" " + s)[1..] == s;
  }

  lemma {:induction false} NotNamed(text: string)
    requires text != "" && text[0] == '('
    ensures !("thread" <= Lower(text))
  {
    assert Lower(text)[0] == '(';
  }

  lemma {:induction false} UnnamedPlain(text: string)
    requires text != "" && text[0] == '('
    ensures Unnamed(text) == text
  {
    NotNamed(text);
    hide Lower, StripLeft;
  }

  lemma {:induction false} UnnamedName(rest: string)
    ensures Unnamed("THREAD" + rest) == StripLeft(rest)
  {
    LowerName(rest);
    assert ("THREAD" + rest)[6..] == rest;
    hide Lower, StripLeft;
  }

  lemma {:induction false} NameThenText(text: string) returns (line: string)
    requires text != "" && text[0] == '(' && text[|text| - 1] == ')'
    ensures line == "THREAD " + text && line == "THREAD" + (" " + text)
    ensures line != "" && line[0] == 'T' && line[|line| - 1] == ')'
  {
    line := "THREAD " + text;
  }

  lemma {:induction false} BodyOfText(text: string)
    requires text != "" && text[0] == '(' && text[|text| - 1] == ')'
    ensures Body(text) == text && Body("THREAD " + text) == text
  {
    hide IsSpace, Strip, StripLeft, Lower, Unnamed;
    Spaces();
    var line := NameThenText(text);
    StripNothing(text);
    StripNothing(line);
    UnnamedPlain(text);
    UnnamedName(" " + text);
  }

  /** Parsing what a server prints for any forest, with or without the response name,
      gives exactly one list for each conversation, its UIDs in preorder. */
  lemma {:induction false} ParsePrinted(threads: seq<seq<nat>>, forest: seq<Tree>)
    ensures ReadLine(threads, Groups(forest)) == threads + Conversations(forest)
    ensures ReadLine(threads, "THREAD " + Groups(forest)) == threads + Conversations(forest)
  {
    BodyOfGroups(forest);
    ScanForest(threads, forest);
  }

  // ----- parsing anything

  function Flatten(groups: seq<seq<nat>>): seq<nat> {
    if groups == [] then [] else Flatten(groups[..|groups| - 1]) + groups[|groups| - 1]
  }

  /** The numbers in a text: its runs of digits, in order. */
  function Numbers(pending: Digits, text: string): seq<nat>
    decreases |text|
  {
    if text != "" && IsDigit(text[0]) then Numbers(pending + [text[0]], text[1..])
    else (if pending == "" then [] else [Number(pending)]) + (if text == "" then [] else Numbers("", text[1..]))
  }

  function Held(st: Scanner): seq<nat> { Flatten(st.threads) + st.current }

  lemma {:induction false} FlattenSnoc(groups: seq<seq<nat>>, group: seq<nat>)
    ensures Flatten(groups + [group]) == Flatten(groups) + group
  {
    assert (groups + [group])[..|groups|] == groups;
  }

  ghost predicate NoneEmpty(groups: seq<seq<nat>>) { forall g :: g in groups ==> g != [] }

  lemma {:induction false} CloseKeeps(st: Scanner)
    requires NoneEmpty(st.threads)
    ensures NoneEmpty(Close(st).threads) && Held(Close(st)) == Held(st) && Close(st).digits == st.digits
  {
    FlattenSnoc(st.threads, st.current);
    hide Flatten;
    if Close(st).threads != st.threads {
      assert Flatten(st.threads + [st.current]) + [] == Flatten(st.threads + [st.current]);
    }
  }

  lemma {:induction false} FlushKeeps(st: Scanner)
    ensures Held(Flush(st)) == Held(st) + (if st.digits == "" then [] else [Number(st.digits)])
    ensures Flush(st).threads == st.threads && Flush(st).digits == ""
  {
    hide Flatten, Number;
    assert Held(st) + [] == Held(st);
  }

  lemma {:induction false} StepKeeps(st: Scanner, c: char)
    requires NoneEmpty(st.threads)
    ensures NoneEmpty(Step(st, c).threads)
    ensures !IsDigit(c) ==> Step(st, c).digits == ""
    ensures Held(Step(st, c)) == Held(st) + (if IsDigit(c) || st.digits == "" then [] else [Number(st.digits)])
  {
    FlushKeeps(st);
    CloseKeeps(Flush(st));
    hide Flatten, Number, Flush, Close, NoneEmpty;
    assert Held(st) + [] == Held(st);
  }

  lemma {:induction false} FinishKeeps(st: Scanner)
    requires NoneEmpty(st.threads)
    ensures NoneEmpty(Finish(st))
    ensures Flatten(Finish(st)) == Held(st) + (if st.digits == "" then [] else [Number(st.digits)])
  {
    var flushed := Flush(st);
    FlattenSnoc(flushed.threads, flushed.current);
    hide Flatten;
  }

  lemma {:induction false} ScanKeepsNumbers(st: Scanner, text: string)
    requires NoneEmpty(st.threads)
    ensures NoneEmpty(Finish(Scan(st, text)))
    ensures Flatten(Finish(Scan(st, text))) == Held(st) + Numbers(st.digits, text)
    decreases |text|
  {
    assert text != "" && IsDigit(text[0]) ==> Step(st, text[0]).digits == st.digits + [text[0]];
    hide Flatten, Finish, Step, Held;
    if text == "" {
      FinishKeeps(st);
    } else {
      StepKeeps(st, text[0]);
      ScanKeepsNumbers(Step(st, text[0]), text[1..]);
      if IsDigit(text[0]) {
        assert Held(st) + [] == Held(st);
      }
    }
  }

  // ----- which lines count

  /** `thread`, in any case. */
  ghost predicate IsName(name: string) { |name| == 6 && forall i :: 0 <= i < 6 ==> LowerChar(name[i]) == "thread"[i] }

  /** A line holds a text that opens with `(`: white space around it, and the response's
      name before it, aside. */
  ghost predicate Holds(line: string, text: string) {
    exists before, name, gap, after :: Around(line, before, name, gap, text, after)
  }

  ghost predicate Around(line: string, before: string, name: string, gap: string, text: string, after: string) {
    && line == before + (name + gap + text) + after
    && AllSpace(before) && AllSpace(gap) && AllSpace(after)
    && (IsName(name) || (name == "" && gap == ""))
    && text != "" && text[0] == '(' && !IsSpace(text[|text| - 1])
  }

  /** A line that holds no such text. */
  ghost predicate Commentary(line: string) { forall text :: !Holds(line, text) }

  lemma {:induction false} NameIff(name: string, rest: string)
    requires |name| == 6
    ensures IsName(name) <==> "thread" <= Lower(name + rest)
    ensures IsName(name) ==> !IsSpace(name[0])
  {
    assert Lower(name + rest)[..6] == Lower(name);
    assert IsName(name) <==> Lower(name) == "thread" by {
      if IsName(name) { assert forall i :: 0 <= i < 6 ==> Lower(name)[i] == "thread"[i]; }
    }
    if IsName(name) { assert LowerChar(name[0]) == 't'; }
  }

  lemma {:induction false} HoldsBody(line: string, text: string)
    requires Holds(line, text)
    ensures Body(line) == text
  {
    var before, name, gap, after :| Around(line, before, name, gap, text, after);
    Spaces();
    hide IsSpace, Strip, StripLeft, Lower, AllSpace, IsName;
    var core := name + gap + text;
    if name == "" {
      assert core == text;
      StripAround(before, text, after);
      UnnamedPlain(text);
    } else {
      assert IsName(name);
      NamedSix(name);
      assert core == name + (gap + text);
      NameIff(name, gap + text);
      assert core[0] == name[0] && core[|core| - 1] == text[|text| - 1];
      StripAround(before, core, after);
      assert core[6..] == gap + text;
      StripLeftSpaces(gap, text);
    }
  }

  lemma {:induction false} NamedSix(name: string)
    requires IsName(name)
    ensures |name| == 6
  {
  }

  /** The two ways a body comes out of a stripped line. */
  lemma {:induction false} BodyCases(line: string)
    requires Body(line) != ""
    ensures var core, text := Strip(line), Body(line);
            && text[0] == '(' && core != "" && !IsSpace(core[|core| - 1])
            && (if "thread" <= Lower(core) then |core| >= 6 && text == StripLeft(core[6..]) else core == text)
  {
    var core := Strip(line);
    LowerLength(core);
    hide IsSpace, StripLeft, Lower;
  }

  lemma {:induction false} SuffixParts(rest: string, text: string) returns (gap: string)
    requires text == StripLeft(rest)
    ensures rest == gap + text && AllSpace(gap)
  {
    StripLeftMeans(rest);
    gap := rest[..|rest| - |text|];
    hide StripLeft, AllSpace;
  }

  lemma {:induction false} BodyHolds(line: string)
    requires Body(line) != ""
    ensures Holds(line, Body(line))
  {
    hide *;
    var core, text := Strip(line), Body(line);
    var before, after := StripMeans(line);
    BodyCases(line);
    if "thread" <= Lower(core) {
      var name, rest := core[..6], core[6..];
      assert core == name + rest;
      NameIff(name, rest);
      var gap := SuffixParts(rest, text);
      NamedHolds(line, before, name, gap, text, after, core);
    } else {
      NoSpace();
      PlainHolds(line, before, text, after);
    }
  }

  lemma {:induction false} NamedHolds(line: string, before: string, name: string, gap: string, text: string, after: string, core: string)
    requires line == before + core + after && core == name + (gap + text) && core != "" && !IsSpace(core[|core| - 1])
    requires AllSpace(before) && AllSpace(gap) && AllSpace(after) && IsName(name) && text != "" && text[0] == '('
    ensures Holds(line, text)
  {
    hide AllSpace, IsSpace, IsName;
    assert core == name + gap + text && core[|core| - 1] == text[|text| - 1];
    HoldsAround(line, before, name, gap, text, after);
  }

  lemma {:induction false} PlainHolds(line: string, before: string, text: string, after: string)
    requires line == before + text + after && AllSpace(before) && AllSpace("") && AllSpace(after)
    requires text != "" && text[0] == '(' && !IsSpace(text[|text| - 1])
    ensures Holds(line, text)
  {
    hide AllSpace, IsSpace, IsName;
    assert "" + "" + text == text;
    HoldsAround(line, before, "", "", text, after);
  }

  lemma {:induction false} HoldsAround(line: string, before: string, name: string, gap: string, text: string, after: string)
    requires line == before + (name + gap + text) + after && AllSpace(before) && AllSpace(gap) && AllSpace(after)
    requires IsName(name) || (name == "" && gap == "")
    requires text != "" && text[0] == '(' && !IsSpace(text[|text| - 1])
    ensures Holds(line, text)
  {
    hide AllSpace, IsSpace, IsName;
    assert Around(line, before, name, gap, text, after);
  }

  lemma {:induction false} LowerLength(core: string)
    ensures "thread" <= Lower(core) ==> |core| >= 6
  {
    assert |"thread"| == 6;
  }

  lemma {:induction false} NoSpace()
    ensures AllSpace("")
  {
  }

  /** The parser reads exactly the texts that lines hold. */
  lemma {:induction false} LineIff(line: string, text: string)
    ensures Holds(line, text) <==> text != "" && Body(line) == text
    ensures Commentary(line) <==> Body(line) == ""
  {
    hide Body;
    forall held | Holds(line, held) ensures held == Body(line) && held != "" {
      HoldsBody(line, held);
      var before, name, gap, after :| Around(line, before, name, gap, held, after);
    }
    hide Holds;
    if Body(line) != "" { BodyHolds(line); }
  }

  /** Commentary adds nothing, whatever it says. */
  lemma {:induction false} CommentarySkipped(threads: seq<seq<nat>>, line: string)
    requires Commentary(line)
    ensures ReadLine(threads, line) == threads
  {
    LineIff(line, "");
    NoText(threads);
    hide Body, Scan, Finish, Commentary;
  }

  /** A line that holds a printed forest adds its conversations. */
  lemma {:induction false} ForestRead(threads: seq<seq<nat>>, line: string, forest: seq<Tree>)
    requires Holds(line, Groups(forest))
    ensures ReadLine(threads, line) == threads + Conversations(forest)
  {
    LineIff(line, Groups(forest));
    ScanForest(threads, forest);
    hide Body, Scan, Groups, Conversations, Holds;
  }

  /** A line that carries a forest: printed in it, or nothing when the forest is
      empty. */
  ghost predicate Carries(line: string, forest: seq<Tree>) {
    Holds(line, Groups(forest)) || (forest == [] && Commentary(line))
  }

  function Together(forests: seq<seq<Tree>>): seq<Tree> {
    if forests == [] then [] else Together(forests[..|forests| - 1]) + forests[|forests| - 1]
  }

  lemma {:induction false} ConversationsConcat(a: seq<Tree>, b: seq<Tree>)
    ensures Conversations(a + b) == Conversations(a) + Conversations(b)
    decreases |a|
  {
    if a == [] {
      assert a + b == b;
    } else {
      assert (a + b)[1..] == a[1..] + b;
      ConversationsConcat(a[1..], b);
      hide Preorder;
    }
  }

  /** A whole response: whatever commentary stands between the lines that carry forests,
      the conversations read are those of the forests, in order. */
  lemma {:induction false} ResponseRead(lines: seq<string>, forests: seq<seq<Tree>>)
    requires |lines| == |forests| && forall i :: 0 <= i < |lines| ==> Carries(lines[i], forests[i])
    ensures ReadLines(lines) == Conversations(Together(forests))
  {
    hide ReadLine, Conversations, Holds, Commentary, Groups;
    if lines == [] {
      NoConversations();
    } else {
      var n := |lines| - 1;
      ResponseRead(lines[..n], forests[..n]);
      ConversationsConcat(Together(forests[..n]), forests[n]);
      if forests[n] == [] && Commentary(lines[n]) {
        CommentarySkipped(ReadLines(lines[..n]), lines[n]);
        NoConversations();
        assert Together(forests[..n]) + [] == Together(forests[..n]);
      } else {
        ForestRead(ReadLines(lines[..n]), lines[n], forests[n]);
      }
    }
  }

  lemma {:induction false} NoConversations()
    ensures Conversations([]) == []
  {
  }

  /** Any commentary before and after the one line that carries the forest. */
  lemma {:induction false} OneResponse(before: seq<string>, line: string, after: seq<string>, forest: seq<Tree>)
    requires forall other :: other in before + after ==> Commentary(other)
    requires Carries(line, forest)
    ensures ReadLines(before + [line] + after) == Conversations(forest)
  {
    hide Conversations, Commentary;
    var forests := seq(|before|, i => []) + [forest] + seq(|after|, i => []);
    var lines := before + [line] + after;
    forall i | 0 <= i < |lines| ensures Carries(lines[i], forests[i]) {
      if i != |before| { assert lines[i] in before + after && forests[i] == []; }
    }
    hide Carries;
    ResponseRead(lines, forests);
    OneForest(|before|, forest, |after|);
  }

  lemma {:induction false} OneForest(a: nat, forest: seq<Tree>, b: nat)
    ensures Together(seq(a, i => []) + [forest] + seq(b, i => [])) == forest
    decreases a + b
  {
    var forests: seq<seq<Tree>> := seq(a, i => []) + [forest] + seq(b, i => []);
    var init := forests[..|forests| - 1];
    if b > 0 {
      assert init == seq(a, i => []) + [forest] + seq(b - 1, i => []);
      OneForest(a, forest, b - 1);
    } else {
      assert init == seq(a, i => []);
      NoForests(a);
    }
  }

  lemma {:induction false} NoForests(a: nat)
    ensures Together(seq(a, i => [])) == []
  {
    if a > 0 {
      var forests: seq<seq<Tree>> := seq(a, i => []);
      assert forests[..a - 1] == seq(a - 1, i => []);
      NoForests(a - 1);
    }
  }

  /** Whatever a line holds, well nested or not, no number is lost, doubled or moved and
      no conversation is empty. */
  lemma {:induction false} NumbersKept(threads: seq<seq<nat>>, line: string, text: string)
    requires NoneEmpty(threads) && Holds(line, text)
    ensures Flatten(ReadLine(threads, line)) == Flatten(threads) + Numbers("", text)
    ensures NoneEmpty(ReadLine(threads, line))
  {
    LineIff(line, text);
    hide Body, Holds;
    ScanKeepsNumbers(Scanner(0, "", [], threads), text);
    assert Flatten(threads) + [] == Flatten(threads);
  }

  /** What a server prints for a forest carries it. */
  lemma {:induction false} PrintedCarries(forest: seq<Tree>)
    ensures Carries(Groups(forest), forest) && Carries("THREAD " + Groups(forest), forest)
  {
    BodyOfGroups(forest);
    LineIff(Groups(forest), Groups(forest));
    LineIff("THREAD " + Groups(forest), Groups(forest));
    if forest != [] { GroupsEnds(forest); } else { assert Groups(forest) == ""; }
    hide Body, Holds, Commentary, Groups;
  }
}
