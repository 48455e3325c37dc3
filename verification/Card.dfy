/** The header card a forwarded copy opens with, in plain text, and its removal from
    a reply that quotes it (src/lightr/mail/replies.py). */
module Card {
  import opened Text

  const FORWARD_MARKER := "Forwarded by Lightr"
  const REPLY_HINT := "Reply to this email to answer the sender."
  const LEGACY_START := "---------- Forwarded by Lightr ----------"
  const LEGACY_END := "---------- Original message ----------"
  const LEGACY_HINT := "Reply to this message to answer"

  // ----- removal

  /** `^[\s>]*` */
  function Unquote(line: string): string {
    if line != "" && (IsSpace(line[0]) || line[0] == '>') then Unquote(line[1..]) else line
  }

  function StarsLeft(s: string): string { if s != "" && s[0] == '*' then StarsLeft(s[1..]) else s }

  function StarsRight(s: string): string {
    if s != "" && s[|s| - 1] == '*' then StarsRight(s[..|s| - 1]) else s
  }

  /** A line without its quoting and the `*bold*` a client makes of it. */
  function Bare(line: string): string { Strip(StarsRight(StarsLeft(Strip(Unquote(line))))) }

  predicate IsStart(line: string) { Bare(line) in [FORWARD_MARKER, LEGACY_START] }

  predicate IsEnd(line: string) {
    REPLY_HINT <= Bare(line) || LEGACY_END <= Bare(line) || LEGACY_HINT <= Bare(line)
  }

  predicate EndsInDot(s: string) { s != "" && s[|s| - 1] == '.' }

  /** All that the removal asks of a line. */
  datatype Look = Look(starts: bool, ends: bool, closed: bool, blank: bool)

  function LookAt(line: string): Look {
    Look(IsStart(line), IsEnd(line), EndsInDot(Bare(line)), Bare(line) == "")
  }

  function Looks(lines: seq<string>): (r: seq<Look>)
    ensures |r| == |lines|
  {
    seq(|lines|, i requires 0 <= i < |lines| => LookAt(lines[i]))
  }

  /** The first line at `i` or later that starts a card. */
  function StartFrom(ls: seq<Look>, i: nat): (r: Option<nat>)
    ensures r.Some? ==> i <= r.value < |ls| && ls[r.value].starts
    decreases |ls| - i
  {
    if i >= |ls| then None else if ls[i].starts then Some(i) else StartFrom(ls, i + 1)
  }

  function EndFrom(ls: seq<Look>, i: nat): (r: Option<nat>)
    ensures r.Some? ==> i <= r.value < |ls| && ls[r.value].ends
    decreases |ls| - i
  {
    if i >= |ls| then None else if ls[i].ends then Some(i) else EndFrom(ls, i + 1)
  }

  /** The last line to remove: the end line, the tail a client wrapped off it, and one
      blank line. */
  function LastLine(ls: seq<Look>, end: nat): (r: nat)
    requires end < |ls|
    ensures end <= r < |ls|
  {
    var wrapped := !ls[end].closed && end + 1 < |ls| && ls[end + 1].closed;
    var last := if wrapped then end + 1 else end;
    if last + 1 < |ls| && ls[last + 1].blank then last + 1 else last
  }

  /** The first line to remove and the first to keep after it. */
  function Removal(ls: seq<Look>): (r: Option<(nat, nat)>)
    ensures r.Some? ==> r.value.0 < r.value.1 <= |ls|
  {
    match StartFrom(ls, 0)
    case None => None
    case Some(start) =>
      match EndFrom(ls, start + 1)
      case None => None
      case Some(end) => Some((start, LastLine(ls, end) + 1))
  }

  /** `strip_card_text` */
  function StripCardText(text: string): string {
    var lines := KeepLines(text);
    match Removal(Looks(lines))
    case None => text
    case Some((from, to)) => Glue(lines[..from] + lines[to..])
  }

  // ----- the card

  /** The header fields shown, each on one line; an empty `cc` or `date` is left
      out. */
  datatype Fields = Fields(sender: string, to: string, cc: string, date: string)

  function CardLines(f: Fields): seq<string> {
    [FORWARD_MARKER, "From: " + f.sender, "To: " + f.to]
    + (if f.cc == "" then [] else ["Cc: " + f.cc])
    + (if f.date == "" then [] else ["Date: " + f.date])
    + [REPLY_HINT]
  }

  /** Each line after the same quote prefix, ended the same way. */
  function Quoted(lines: seq<string>, prefix: string, eol: string): string {
    if lines == [] then "" else prefix + lines[0] + eol + Quoted(lines[1..], prefix, eol)
  }

  /** The text part of a forwarded copy. */
  function WrapText(f: Fields, original: string): string { Join("\n", CardLines(f)) + "\n\n" + original }

  // ----- what a line is

  ghost predicate OneLine(s: string) { forall c :: c in s ==> !IsBreak(c) }

  /** Spaces and `>`, as clients quote. */
  ghost predicate IsPrefix(s: string) { forall c :: c in s ==> c == ' ' || c == '>' }

  predicate IsEol(s: string) { s == "\n" || s == "\r\n" }

  ghost predicate ProperFields(f: Fields) { OneLine(f.sender) && OneLine(f.to) && OneLine(f.cc) && OneLine(f.date) }

  lemma {:induction false} Characters()
    ensures IsSpace(' ') && !IsSpace('>') && IsSpace('\n') && IsSpace('\r')
    ensures forall c :: c in "FTCDRr.:" ==> !IsSpace(c)
    ensures forall c :: c in " >FTCDRr.:" ==> !IsBreak(c)
  {
  }

  lemma {:induction false} UnquotePrefix(prefix: string, rest: string)
    requires IsPrefix(prefix)
    ensures Unquote(prefix + rest) == Unquote(rest)
  {
    if prefix == "" {
      assert prefix + rest == rest;
    } else {
      Characters();
      assert prefix[0] in prefix;
      assert (prefix + rest)[1..] == prefix[1..] + rest;
      assert forall c :: c in prefix[1..] ==> c in prefix;
      UnquotePrefix(prefix[1..], rest);
    }
  }

  lemma {:induction false} StripRightKeepsStart(s: string)
    requires s != "" && !IsSpace(s[0])
    ensures StripRight(s) != "" && StripRight(s)[0] == s[0]
  {
    if IsSpace(s[|s| - 1]) { StripRightKeepsStart(s[..|s| - 1]); }
  }

  lemma {:induction false} StarsRightKeepsStart(s: string)
    requires s != "" && s[0] != '*'
    ensures StarsRight(s) != "" && StarsRight(s)[0] == s[0]
  {
    if s[|s| - 1] == '*' { StarsRightKeepsStart(s[..|s| - 1]); }
  }

  lemma {:induction false} StripKeepsStart(s: string)
    requires s != "" && !IsSpace(s[0])
    ensures Strip(s) != "" && Strip(s)[0] == s[0]
  {
    StripRightKeepsStart(s);
    assert StripLeft(s) == s;
  }

  /** A quoted line is, bare, whatever follows its quoting: it starts the same. */
  lemma {:induction false} BareStart(prefix: string, line: string, eol: string)
    requires IsPrefix(prefix) && line != "" && !IsSpace(line[0]) && line[0] != '>' && line[0] != '*'
    ensures Bare(prefix + line + eol) != "" && Bare(prefix + line + eol)[0] == line[0]
  {
    var rest := line + eol;
    assert prefix + line + eol == prefix + rest;
    UnquotePrefix(prefix, rest);
    assert Unquote(rest) == rest;
    StripKeepsStart(rest);
    var s := Strip(rest);
    assert StarsLeft(s) == s;
    StarsRightKeepsStart(s);
    StripKeepsStart(StarsRight(s));
  }

  /** A quoted line with no white space or star at its ends is, bare, itself. */
  lemma {:induction false} BareExact(prefix: string, line: string, eol: string)
    requires IsPrefix(prefix) && IsEol(eol) && line != ""
    requires !IsSpace(line[0]) && line[0] != '>' && line[0] != '*'
    requires !IsSpace(line[|line| - 1]) && line[|line| - 1] != '*'
    ensures Bare(prefix + line + eol) == line
  {
    Characters();
    var rest := line + eol;
    assert prefix + line + eol == prefix + rest;
    UnquotePrefix(prefix, rest);
    assert Unquote(rest) == rest;
    assert AllSpace(eol);
    StripRightSpaces(line, eol);
    assert StripLeft(rest) == rest;
    assert Strip(rest) == line;
    assert StarsRight(StarsLeft(line)) == line;
    assert StripLeft(line) == line && StripRight(line) == line;
  }

  lemma {:induction false} BareBlank(prefix: string, eol: string)
    requires IsPrefix(prefix) && IsEol(eol)
    ensures Bare(prefix + eol) == "" && LookAt(prefix + eol).blank
  {
    Characters();
    UnquotePrefix(prefix, eol);
    assert eol[1..] == "" || eol[1..] == "\n";
    assert Unquote(eol) == "" by {
      assert "\n"[1..] == "";
      assert Unquote("\n") == "";
    }
    assert Strip("") == "" && StarsRight(StarsLeft("")) == "";
    hide IsStart, IsEnd, Strip, StarsLeft, StarsRight, Unquote;
  }

  // ----- the lines of a quoted card

  lemma {:induction false} KeepFirstLine(line: string, eol: string, rest: string)
    requires OneLine(line) && IsEol(eol)
    ensures KeepLines(line + eol + rest) == [line + eol] + KeepLines(rest)
  {
    var text := line + eol + rest;
    assert forall i :: 0 <= i < |line| ==> text[i] == line[i] && line[i] in line;
    assert text[|line|] == eol[0];
    LineLenIs(text, |line|);
    var tail := text[|line|..];
    assert tail == eol + rest;
    if |eol| == 2 { assert tail[1] == '\n'; }
    assert EndLen(tail) == |eol|;
    assert LineEnd(text) == |line| + |eol|;
    hide LineEnd;
    assert text[..|line| + |eol|] == line + eol;
    assert text[|line| + |eol|..] == rest;
  }

  ghost predicate EndsALine(before: string, rest: string) {
    before == "" || (IsBreak(before[|before| - 1]) && (rest == "" || rest[0] != '\n'))
  }

  lemma {:induction false} SameFirstLine(before: string, rest: string)
    requires EndsALine(before, rest) && before != ""
    ensures LineEnd(before + rest) == LineEnd(before) && EndsALine(before[LineEnd(before)..], rest)
  {
    var text, n := before + rest, LineLen(before);
    assert n < |before|;
    assert forall i :: 0 <= i <= n ==> text[i] == before[i];
    LineLenIs(text, n);
    assert text[n..] == before[n..] + rest;
    hide LineLen;
    var tail := before[n..];
    assert |tail| >= 2 ==> (tail + rest)[1] == tail[1];
    assert EndLen(tail + rest) == EndLen(tail);
  }

  lemma {:induction false} KeepConcat(before: string, rest: string)
    requires EndsALine(before, rest)
    ensures KeepLines(before + rest) == KeepLines(before) + KeepLines(rest)
    decreases |before|
  {
    hide *;
    var text := before + rest;
    if before == "" {
      assert text == rest;
      KeepNothing();
      assert [] + KeepLines(rest) == KeepLines(rest);
    } else {
      SameFirstLine(before, rest);
      var end := LineEnd(before);
      var tail := before[end..];
      assert text[..end] == before[..end] && text[end..] == tail + rest;
      KeepConcat(tail, rest);
      KeepUnfold(text);
      KeepUnfold(before);
      assert [before[..end]] + (KeepLines(tail) + KeepLines(rest)) == ([before[..end]] + KeepLines(tail)) + KeepLines(rest);
    }
  }

  lemma {:induction false} KeepNothing()
    ensures KeepLines("") == []
  {
  }

  lemma {:induction false} KeepUnfold(text: string)
    requires text != ""
    ensures KeepLines(text) == [text[..LineEnd(text)]] + KeepLines(text[LineEnd(text)..])
  {
  }

  function QuotedLines(lines: seq<string>, prefix: string, eol: string): (r: seq<string>)
    ensures |r| == |lines| && forall i :: 0 <= i < |r| ==> r[i] == prefix + lines[i] + eol
  {
    seq(|lines|, i requires 0 <= i < |lines| => prefix + lines[i] + eol)
  }

  lemma {:induction false} PrefixedOneLine(prefix: string, line: string)
    requires IsPrefix(prefix) && OneLine(line)
    ensures OneLine(prefix + line)
  {
    Characters();
  }

  lemma {:induction false} PrefixOneLine(prefix: string)
    requires IsPrefix(prefix)
    ensures OneLine(prefix)
  {
    Characters();
  }

  lemma {:induction false} KeepQuoted(lines: seq<string>, prefix: string, eol: string, rest: string)
    requires IsPrefix(prefix) && IsEol(eol) && forall line :: line in lines ==> OneLine(line)
    ensures KeepLines(Quoted(lines, prefix, eol) + rest) == QuotedLines(lines, prefix, eol) + KeepLines(rest)
  {
    hide *;
    QuotedUnfold(lines, prefix, eol);
    if lines == [] {
      assert "" + rest == rest && [] + KeepLines(rest) == KeepLines(rest);
    } else {
      assert lines[0] in lines && forall line :: line in lines[1..] ==> line in lines;
      PrefixedOneLine(prefix, lines[0]);
      var first := prefix + lines[0];
      var more := Quoted(lines[1..], prefix, eol);
      assert first + eol + more + rest == first + eol + (more + rest);
      KeepFirstLine(first, eol, more + rest);
      KeepQuoted(lines[1..], prefix, eol, rest);
      var others := QuotedLines(lines[1..], prefix, eol);
      assert [first + eol] + (others + KeepLines(rest)) == ([first + eol] + others) + KeepLines(rest);
    }
  }

  lemma {:induction false} QuotedUnfold(lines: seq<string>, prefix: string, eol: string)
    ensures lines == [] ==> Quoted(lines, prefix, eol) == "" && QuotedLines(lines, prefix, eol) == []
    ensures lines != [] ==>
              && Quoted(lines, prefix, eol) == prefix + lines[0] + eol + Quoted(lines[1..], prefix, eol)
              && QuotedLines(lines, prefix, eol) == [prefix + lines[0] + eol] + QuotedLines(lines[1..], prefix, eol)
  {
  }

  lemma {:induction false} CardOneLine(f: Fields)
    requires ProperFields(f)
    ensures forall line :: line in CardLines(f) ==> OneLine(line)
  {
    FixedOneLine();
    assert OneLine("From: " + f.sender) && OneLine("To: " + f.to) && OneLine("Cc: " + f.cc) && OneLine("Date: " + f.date);
    hide OneLine;
  }

  lemma {:induction false} FixedOneLine()
    ensures OneLine(FORWARD_MARKER) && OneLine(REPLY_HINT)
    ensures OneLine("From: ") && OneLine("To: ") && OneLine("Cc: ") && OneLine("Date: ")
  {
  }

  /** The card's first line starts a card, its last line ends one, and no line
      between ends one. */
  lemma {:induction false} CardShape(f: Fields, prefix: string, eol: string)
    requires IsPrefix(prefix) && IsEol(eol)
    ensures var looks := Looks(QuotedLines(CardLines(f), prefix, eol));
            IsCard(looks) && looks[|looks| - 1].closed
  {
    var card := CardLines(f);
    var lines := QuotedLines(card, prefix, eol);
    FieldLines(f);
    assert card[0] == FORWARD_MARKER && card[|card| - 1] == REPLY_HINT && |card| >= 4;
    hide *;
    CardEnds(prefix, eol);
    forall i | 0 < i < |lines| - 1 ensures !IsEnd(lines[i]) { MiddleLine(prefix, card[i], eol); }
    CardLooks(lines);
  }

  lemma {:induction false} CardLooks(lines: seq<string>)
    requires |lines| >= 2 && IsStart(lines[0]) && forall i :: 0 < i < |lines| - 1 ==> !IsEnd(lines[i])
    requires IsEnd(lines[|lines| - 1]) && EndsInDot(Bare(lines[|lines| - 1]))
    ensures IsCard(Looks(lines)) && Looks(lines)[|lines| - 1].closed
  {
    hide IsStart, IsEnd, Bare, EndsInDot;
  }

  lemma {:induction false} FieldLines(f: Fields)
    ensures var card := CardLines(f);
            forall i :: 0 < i < |card| - 1 ==> card[i] != "" && card[i][0] in "FTCD"
  {
  }

  lemma {:induction false} CardEnds(prefix: string, eol: string)
    requires IsPrefix(prefix) && IsEol(eol)
    ensures IsStart(prefix + FORWARD_MARKER + eol)
    ensures IsEnd(prefix + REPLY_HINT + eol) && EndsInDot(Bare(prefix + REPLY_HINT + eol))
  {
    Characters();
    BareExact(prefix, FORWARD_MARKER, eol);
    BareExact(prefix, REPLY_HINT, eol);
  }

  lemma {:induction false} MiddleLine(prefix: string, line: string, eol: string)
    requires IsPrefix(prefix) && IsEol(eol) && line != "" && line[0] in "FTCD"
    ensures !IsEnd(prefix + line + eol)
  {
    Characters();
    hide *;
    assert !IsSpace(line[0]) && line[0] != '>' && line[0] != '*';
    BareStart(prefix, line, eol);
    NotAnEnd(prefix + line + eol);
  }

  lemma {:induction false} NotAnEnd(line: string)
    requires Bare(line) != "" && Bare(line)[0] in "FTCD"
    ensures !IsEnd(line)
  {
    hide Bare;
    assert REPLY_HINT[0] == 'R' && LEGACY_END[0] == '-' && LEGACY_HINT[0] == 'R';
  }

  // ----- removing a quoted card

  lemma {:induction false} StartIs(ls: seq<Look>, i: nat, k: nat)
    requires i <= k < |ls| && ls[k].starts && forall j :: i <= j < k ==> !ls[j].starts
    ensures StartFrom(ls, i) == Some(k)
    decreases k - i
  {
    if i < k { StartIs(ls, i + 1, k); }
  }

  lemma {:induction false} EndIs(ls: seq<Look>, i: nat, k: nat)
    requires i <= k < |ls| && ls[k].ends && forall j :: i <= j < k ==> !ls[j].ends
    ensures EndFrom(ls, i) == Some(k)
    decreases k - i
  {
    if i < k { EndIs(ls, i + 1, k); }
  }

  /** A card: its first line starts it, its last line ends it, and no line between
      does. */
  ghost predicate IsCard(card: seq<Look>) {
    && |card| >= 2 && card[0].starts && card[|card| - 1].ends
    && forall i :: 0 < i < |card| - 1 ==> !card[i].ends
  }

  /** What is removed: the card from its first line to its last, a tail wrapped off an
      unclosed last line, and a blank line after that. */
  lemma {:induction false} CardFound(above: seq<Look>, card: seq<Look>, tail: seq<Look>, blank: Look, below: seq<Look>)
    requires IsCard(card) && forall i :: 0 <= i < |above| ==> !above[i].starts
    requires (card[|card| - 1].closed && tail == [])
      || (!card[|card| - 1].closed && |tail| == 1 && tail[0].closed)
    requires blank.blank
    ensures Removal(above + card + tail + [blank] + below) == Some((|above|, |above| + |card| + |tail| + 1))
  {
    var ls := above + card + tail + [blank] + below;
    var end := |above| + |card| - 1;
    assert forall i :: 0 <= i < |above| ==> ls[i] == above[i];
    assert forall i :: |above| <= i <= end ==> ls[i] == card[i - |above|];
    assert ls[end + |tail| + 1] == blank && (|tail| == 1 ==> ls[end + 1] == tail[0]);
    StartIs(ls, 0, |above|);
    EndIs(ls, |above| + 1, end);
  }

  lemma {:induction false} LooksConcat(a: seq<string>, b: seq<string>)
    ensures Looks(a + b) == Looks(a) + Looks(b)
  {
    hide LookAt;
  }

  lemma {:induction false} LooksOfParts(above: seq<string>, card: seq<string>, blank: string, below: seq<string>)
    ensures Looks(above + card + [blank] + below) == Looks(above) + Looks(card) + [] + [LookAt(blank)] + Looks(below)
  {
    assert Looks([blank]) == [LookAt(blank)];
    hide Looks, LookAt;
    LooksConcat(above, card);
    LooksConcat(above + card, [blank]);
    LooksConcat(above + card + [blank], below);
    assert Looks(above) + Looks(card) + [] == Looks(above) + Looks(card);
  }

  lemma {:induction false} OuterParts(above: seq<string>, card: seq<string>, blank: string, below: seq<string>)
    ensures var lines := above + card + [blank] + below;
            lines[..|above|] == above && lines[|above| + |card| + 1..] == below
  {
  }

  lemma {:induction false} StripRemoves(text: string, from: nat, to: nat)
    ensures Removal(Looks(KeepLines(text))) == Some((from, to)) ==>
              && from <= to <= |KeepLines(text)|
              && StripCardText(text) == Glue(KeepLines(text)[..from] + KeepLines(text)[to..])
  {
    hide KeepLines, Looks, Removal, Glue;
  }

  /** For any text above that ends a line and starts no card, any quote prefix, any
      header fields and any text below, removal takes out exactly the quoted card and
      its blank line. */
  lemma {:induction false} StripTextExact(before: string, f: Fields, prefix: string, eol: string, after: string)
    requires IsPrefix(prefix) && IsEol(eol) && ProperFields(f)
    requires before == "" || IsBreak(before[|before| - 1])
    requires forall line :: line in KeepLines(before) ==> !IsStart(line)
    ensures StripCardText(before + Quoted(CardLines(f), prefix, eol) + (prefix + eol) + after) == before + after
  {
    hide KeepLines, Quoted, QuotedLines, CardLines, Looks, LookAt, IsStart, IsEnd, Bare, StripCardText, Removal, Glue;
    hide IsPrefix, IsEol, OneLine, ProperFields, EndsALine, IsBreak, IsCard;
    var card := CardLines(f);
    var rest := Quoted(card, prefix, eol) + (prefix + eol + after);
    var text := before + Quoted(card, prefix, eol) + (prefix + eol) + after;
    assert text == before + rest;
    RestStart(f, prefix, eol, after);
    EndsIt(before, rest);
    KeepConcat(before, rest);
    CardOneLine(f);
    KeepQuoted(card, prefix, eol, prefix + eol + after);
    PrefixOneLine(prefix);
    KeepFirstLine(prefix, eol, after);
    CardShape(f, prefix, eol);
    BareBlank(prefix, eol);
    var above, below, lines := KeepLines(before), KeepLines(after), QuotedLines(card, prefix, eol);
    assert KeepLines(text) == above + lines + [prefix + eol] + below;
    NoStarts(before);
    LooksOfParts(above, lines, prefix + eol, below);
    CardFound(Looks(above), Looks(lines), [], LookAt(prefix + eol), Looks(below));
    StripRemoves(text, |above|, |above| + |lines| + 1);
    OuterParts(above, lines, prefix + eol, below);
    GlueConcat(above, below);
    GlueKeepLines(before);
    GlueKeepLines(after);
  }

  lemma {:induction false} NoStarts(before: string)
    requires forall line :: line in KeepLines(before) ==> !IsStart(line)
    ensures var above := KeepLines(before); forall i :: 0 <= i < |above| ==> !Looks(above)[i].starts
  {
    hide IsStart, IsEnd, Bare, KeepLines;
  }

  lemma {:induction false} EndsIt(before: string, rest: string)
    requires before == "" || IsBreak(before[|before| - 1])
    requires rest != "" && rest[0] != '\n'
    ensures EndsALine(before, rest)
  {
  }

  lemma {:induction false} RestStart(f: Fields, prefix: string, eol: string, after: string)
    requires IsPrefix(prefix)
    ensures var rest := Quoted(CardLines(f), prefix, eol) + (prefix + eol + after);
            rest != "" && rest[0] != '\n'
  {
    var lines := CardLines(f);
    assert lines[0] == FORWARD_MARKER && FORWARD_MARKER[0] == 'F';
    if prefix != "" { assert prefix[0] in prefix; }
  }

  /** Stripping undoes wrapping. */
  lemma {:induction false} StripUndoesWrap(f: Fields, original: string)
    requires ProperFields(f)
    ensures StripCardText(WrapText(f, original)) == original
  {
    hide *;
    KeepNothing();
    WrapIsQuoted(f, original);
    NoPrefix();
    StripTextExact("", f, "", "\n", original);
    assert "" + original == original;
  }

  lemma {:induction false} NoPrefix()
    ensures IsPrefix("") && IsEol("\n")
  {
  }

  lemma {:induction false} WrapIsQuoted(f: Fields, original: string)
    ensures WrapText(f, original) == "" + Quoted(CardLines(f), "", "\n") + ("" + "\n") + original
  {
    JoinQuoted(CardLines(f));
    assert CardLines(f) != [];
    hide CardLines, Quoted, Join;
    var joined := Join("\n", CardLines(f));
    assert joined + "\n\n" == joined + "\n" + "\n";
  }

  lemma {:induction false} JoinQuoted(lines: seq<string>)
    ensures lines != [] ==> Quoted(lines, "", "\n") == Join("\n", lines) + "\n"
  {
    if lines != [] {
      JoinQuoted(lines[1..]);
      assert "" + lines[0] == lines[0];
    }
  }

  lemma {:induction false} LinesNotEmpty(text: string)
    ensures forall line :: line in KeepLines(text) ==> line != ""
    decreases |text|
  {
    if text != "" {
      hide LineEnd;
      LinesNotEmpty(text[LineEnd(text)..]);
    }
  }

  /** A text is left unchanged exactly when no line starts a card or none after the
      first that does ends one; otherwise lines are removed. */
  lemma {:induction false} UnchangedIff(text: string)
    ensures StripCardText(text) == text <==> !HasCard(KeepLines(text))
  {
    var lines := KeepLines(text);
    GlueKeepLines(text);
    LinesNotEmpty(text);
    RemovalIff(Looks(lines));
    hide KeepLines, Looks, Removal, Glue;
    if Removal(Looks(lines)).Some? {
      var (from, to) := Removal(Looks(lines)).value;
      GlueShorter(lines, from, to);
    }
  }

  ghost predicate HasCard(lines: seq<string>) { StartThenEnd(Looks(lines)) }

  /** Some line ends a card after the first one that starts a card. */
  ghost predicate StartThenEnd(ls: seq<Look>) {
    exists i, j :: 0 <= i < j < |ls| && ls[i].starts && ls[j].ends && forall k :: 0 <= k < i ==> !ls[k].starts
  }

  lemma {:induction false} NoneFrom(ls: seq<Look>, i: nat)
    ensures StartFrom(ls, i).None? <==> forall j :: i <= j < |ls| ==> !ls[j].starts
    ensures EndFrom(ls, i).None? <==> forall j :: i <= j < |ls| ==> !ls[j].ends
    ensures StartFrom(ls, i).Some? ==> forall j :: i <= j < StartFrom(ls, i).value ==> !ls[j].starts
    decreases |ls| - i
  {
    if i < |ls| { NoneFrom(ls, i + 1); }
  }

  lemma {:induction false} RemovalIff(ls: seq<Look>)
    ensures Removal(ls).Some? <==> StartThenEnd(ls)
  {
    NoneFrom(ls, 0);
    var start := StartFrom(ls, 0);
    if start.Some? {
      NoneFrom(ls, start.value + 1);
      var end := EndFrom(ls, start.value + 1);
      if end.Some? { assert ls[start.value].starts && ls[end.value].ends; }
    }
  }

  lemma {:induction false} GlueShorter(lines: seq<string>, from: nat, to: nat)
    requires from < to <= |lines| && forall line :: line in lines ==> line != ""
    ensures |Glue(lines[..from] + lines[to..])| < |Glue(lines)|
  {
    GlueConcat(lines[..from], lines[to..]);
    GlueConcat(lines[..from], lines[from..to]);
    GlueConcat(lines[..to], lines[to..]);
    assert lines[..from] + lines[from..to] == lines[..to] && lines[..to] + lines[to..] == lines;
    assert lines[from..to][0] in lines;
  }

  // ----- what a line is without its dress

  ghost predicate IsQuoting(s: string) { forall i :: 0 <= i < |s| ==> IsSpace(s[i]) || s[i] == '>' }

  ghost predicate AllStars(s: string) { forall i :: 0 <= i < |s| ==> s[i] == '*' }

  /** Text that neither begins nor ends in such a character. */
  ghost predicate Trimmed(s: string, space: bool) {
    s == "" || (if space then !IsSpace(s[0]) && !IsSpace(s[|s| - 1]) else s[0] != '*' && s[|s| - 1] != '*')
  }

  /** Quoting, then stars on both sides of the text, then white space; white space
      between the stars and the text goes too. */
  ghost predicate Dressed(line: string, quoting: string, core: string, inner: string, bare: string) {
    && (exists trail :: line == quoting + core + trail && AllSpace(trail))
    && (exists left, right :: core == left + inner + right && AllStars(left) && AllStars(right))
    && (exists left, right :: inner == left + bare + right && AllSpace(left) && AllSpace(right))
    && IsQuoting(quoting) && (core == "" || core[0] != '>')
    && Trimmed(core, true) && Trimmed(inner, false) && Trimmed(bare, true)
  }

  lemma {:induction false} UnquoteMeans(line: string) returns (quoting: string)
    ensures line == quoting + Unquote(line) && IsQuoting(quoting)
    ensures Unquote(line) == "" || (!IsSpace(Unquote(line)[0]) && Unquote(line)[0] != '>')
  {
    hide IsSpace;
    quoting := "";
    if line != "" && (IsSpace(line[0]) || line[0] == '>') {
      quoting := UnquoteMeans(line[1..]);
      quoting := [line[0]] + quoting;
    }
  }

  lemma {:induction false} StarsLeftMeans(s: string) returns (left: string)
    ensures s == left + StarsLeft(s) && AllStars(left) && (StarsLeft(s) == "" || StarsLeft(s)[0] != '*')
  {
    left := "";
    if s != "" && s[0] == '*' {
      left := StarsLeftMeans(s[1..]);
      left := "*" + left;
    }
  }

  lemma {:induction false} StarsRightMeans(s: string) returns (right: string)
    ensures s == StarsRight(s) + right && AllStars(right)
    ensures StarsRight(s) == "" || (StarsRight(s)[|StarsRight(s)| - 1] != '*' && StarsRight(s)[0] == s[0])
  {
    right := "";
    if s != "" && s[|s| - 1] == '*' {
      right := StarsRightMeans(s[..|s| - 1]);
      right := right + "*";
    }
  }

  lemma {:induction false} StripTrims(s: string)
    ensures Trimmed(Strip(s), true)
    ensures s != "" && !IsSpace(s[0]) ==> Strip(s) != "" && Strip(s)[0] == s[0]
  {
    if s != "" && !IsSpace(s[0]) { StripKeepsStart(s); }
    var left := StripLeft(s);
    if Strip(s) != "" { assert Strip(s)[0] == left[0]; }
    hide IsSpace;
  }

  /** Every line is its bare text in its dress. */
  lemma {:induction false} BareMeans(line: string) returns (quoting: string, core: string, inner: string)
    ensures Dressed(line, quoting, core, inner, Bare(line))
  {
    hide IsSpace, IsQuoting, AllStars, AllSpace, Unquote, Strip, StarsLeft, StarsRight, Trimmed;
    quoting, core := OuterDress(line);
    inner := InnerDress(core);
    var gap, gap' := StripMeans(inner);
    StripTrims(inner);
    assert inner == gap + Bare(line) + gap';
  }

  lemma {:induction false} OuterDress(line: string) returns (quoting: string, core: string)
    ensures exists trail :: line == quoting + core + trail && AllSpace(trail)
    ensures IsQuoting(quoting) && (core == "" || core[0] != '>') && Trimmed(core, true) && core == Strip(Unquote(line))
  {
    var unquoted := Unquote(line);
    quoting := UnquoteMeans(line);
    core := Strip(unquoted);
    StripTrims(unquoted);
    var before, trail := StripMeans(unquoted);
    hide Unquote, Strip, IsSpace, IsQuoting, AllSpace;
    CoreAtStart(unquoted, before, core, trail);
    assert line == quoting + core + trail;
  }

  lemma {:induction false} InnerDress(core: string) returns (inner: string)
    requires Trimmed(core, true)
    ensures exists left, right :: core == left + inner + right && AllStars(left) && AllStars(right)
    ensures Trimmed(inner, false) && inner == StarsRight(StarsLeft(core))
  {
    var left := StarsLeftMeans(core);
    var right := StarsRightMeans(StarsLeft(core));
    inner := StarsRight(StarsLeft(core));
    hide StarsLeft, StarsRight, AllStars, IsSpace;
    assert core == left + inner + right;
  }

  lemma {:induction false} CoreAtStart(unquoted: string, before: string, core: string, trail: string)
    requires unquoted == before + core + trail && AllSpace(before) && AllSpace(trail)
    requires unquoted == "" || (!IsSpace(unquoted[0]) && unquoted[0] != '>')
    ensures before == "" && (core == "" ==> trail == "") && (core == "" || core[0] != '>')
  {
    hide IsSpace;
    assert unquoted[..|before|] == before && unquoted[|before| + |core|..] == trail;
    assert forall i :: 0 <= i < |trail| ==> unquoted[|before| + |core| + i] == trail[i];
  }

  /** What removal asks of a line, on its bare text. */
  lemma {:induction false} LookMeans(line: string)
    ensures var look, bare := LookAt(line), Bare(line);
            && (look.starts <==> bare == "Forwarded by Lightr" || bare == "---------- Forwarded by Lightr ----------")
            && (look.ends <==> "Reply to this email to answer the sender." <= bare || "---------- Original message ----------" <= bare
                               || "Reply to this message to answer" <= bare)
            && (look.closed <==> bare != "" && bare[|bare| - 1] == '.') && (look.blank <==> bare == "")
  {
    hide Bare;
  }

  // ----- what the copy shows

  lemma {:induction false} SplitQuoted(lines: seq<string>, rest: string)
    requires forall line :: line in lines ==> OneLine(line)
    ensures SplitLines(Quoted(lines, "", "\n") + rest) == lines + SplitLines(rest)
  {
    hide SplitLines;
    if lines == [] {
      assert "" + rest == rest;
      assert [] + SplitLines(rest) == SplitLines(rest);
    } else {
      var tail := Quoted(lines[1..], "", "\n") + rest;
      assert Quoted(lines, "", "\n") + rest == lines[0] + "\n" + tail;
      assert lines[0] in lines && OneLine(lines[0]);
      SplitFirstLine(lines[0], tail);
      SplitQuoted(lines[1..], rest);
      assert lines == [lines[0]] + lines[1..];
    }
  }

  /** The copy opens with the marker, the sender, the recipients, the copies and the date
      when there are any, the hint and a blank line, and the original follows. */
  lemma {:induction false} WrapShows(f: Fields, original: string)
    requires ProperFields(f)
    ensures SplitLines(WrapText(f, original)) ==
            ["Forwarded by Lightr", "From: " + f.sender, "To: " + f.to]
            + (if f.cc == "" then [] else ["Cc: " + f.cc]) + (if f.date == "" then [] else ["Date: " + f.date])
            + ["Reply to this email to answer the sender."] + [""] + SplitLines(original)
  {
    assert CardLines(f) == ["Forwarded by Lightr", "From: " + f.sender, "To: " + f.to]
           + (if f.cc == "" then [] else ["Cc: " + f.cc]) + (if f.date == "" then [] else ["Date: " + f.date])
           + ["Reply to this email to answer the sender."];
    hide *;
    CardOneLine(f);
    WrapIsQuoted(f, original);
    var lines, quoted := CardLines(f), Quoted(CardLines(f), "", "\n");
    assert "" + quoted + ("" + "\n") + original == quoted + ("" + "\n" + original);
    SplitQuoted(lines, "" + "\n" + original);
    SplitFirstLine("", original);
    assert lines + ([""] + SplitLines(original)) == lines + [""] + SplitLines(original);
  }
}
