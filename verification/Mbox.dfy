/** mboxrd streams: what an export writes and an import reads back
    (src/lightr/mailtransfer.py). */
module Mbox {
  import opened Lines

  const NL: Byte := 10
  const GT: Byte := 62
  /** The five bytes `From `. */
  const FROM: Bytes := [70, 114, 111, 109, 32]

  /** `^>*From ` */
  predicate IsFromLine(line: Bytes) {
    FROM <= line || (line != [] && line[0] == GT && IsFromLine(line[1..]))
  }

  function EscapeLine(line: Bytes): Bytes { if IsFromLine(line) then [GT] + line else line }

  /** `^>(>*From )` loses its first `>`. */
  function UnescapeLine(line: Bytes): Bytes {
    if line != [] && line[0] == GT && IsFromLine(line[1..]) then line[1..] else line
  }

  function MapLines(lines: seq<Bytes>, f: Bytes -> Bytes): (r: seq<Bytes>)
    ensures |r| == |lines| && forall i :: 0 <= i < |r| ==> r[i] == f(lines[i])
  {
    seq(|lines|, i requires 0 <= i < |lines| => f(lines[i]))
  }

  function Escape(raw: Bytes): Bytes { Join(MapLines(Split(raw, NL), EscapeLine), [NL]) }

  function Unescape(raw: Bytes): Bytes { Join(MapLines(Split(raw, NL), UnescapeLine), [NL]) }

  lemma {:induction false} LineRoundTrip(line: Bytes)
    ensures UnescapeLine(EscapeLine(line)) == line
    ensures !(FROM <= EscapeLine(line))
    ensures NL in EscapeLine(line) ==> NL in line
    ensures EscapeLine(line) == [] <==> line == []
  {
    assert FROM[0] == 70;
    if IsFromLine(line) { assert ([GT] + line)[1..] == line; }
  }

  lemma {:induction false} EscapedLines(raw: Bytes)
    ensures Split(Escape(raw), NL) == MapLines(Split(raw, NL), EscapeLine)
  {
    var lines := Split(raw, NL);
    forall i | 0 <= i < |lines| ensures NL !in EscapeLine(lines[i]) { LineRoundTrip(lines[i]); }
    SplitOfJoin(MapLines(lines, EscapeLine), NL);
  }

  /** Unescaping undoes escaping for all bytes, and no escaped line can be taken for
      the start of a message. */
  lemma {:induction false} EscapeRoundTrip(raw: Bytes)
    ensures Unescape(Escape(raw)) == raw
    ensures forall i :: 0 <= i < |Split(Escape(raw), NL)| ==> !(FROM <= Split(Escape(raw), NL)[i])
  {
    EscapedLines(raw);
    var lines := Split(raw, NL);
    var escaped := MapLines(lines, EscapeLine);
    forall i | 0 <= i < |lines| ensures UnescapeLine(escaped[i]) == lines[i] && !(FROM <= escaped[i]) {
      LineRoundTrip(lines[i]);
    }
    assert MapLines(escaped, UnescapeLine) == lines;
    JoinOfSplit(raw, NL);
  }

  // ----- writing

  /** `raw.rstrip(b"\n")` */
  function RStrip(raw: Bytes): (r: Bytes)
    ensures r <= raw && (r != [] ==> r[|r| - 1] != NL)
    ensures forall i :: |r| <= i < |raw| ==> raw[i] == NL
  {
    if raw != [] && raw[|raw| - 1] == NL then RStrip(raw[..|raw| - 1]) else raw
  }

  /** A message to write: its separator line, and its bytes. The separator is
      `From <sender> <date>`; neither part holds a line break. */
  datatype Message = Message(separator: Bytes, raw: Bytes)

  ghost predicate ProperSeparator(line: Bytes) { FROM <= line && NL !in line }

  function ToMbox(m: Message): Bytes { m.separator + [NL] + RStrip(Escape(m.raw)) + [NL, NL] }

  function Stream(ms: seq<Message>): Bytes {
    if ms == [] then [] else ToMbox(ms[0]) + Stream(ms[1..])
  }

  // ----- reading

  /** The lines of a file; text after the last line break is a line only when there
      is some. */
  function FileLines(file: Bytes): seq<Bytes> {
    var parts := Split(file, NL);
    if parts[|parts| - 1] == [] then parts[..|parts| - 1] else parts
  }

  /** How many lines come before the next separator. */
  function BodyLen(lines: seq<Bytes>): (n: nat)
    ensures n <= |lines|
  {
    if lines == [] || FROM <= lines[0] then 0 else 1 + BodyLen(lines[1..])
  }

  /** The bodies between separator lines, each without one closing blank line. */
  function Cut(lines: seq<Bytes>): seq<seq<Bytes>>
    decreases |lines|
  {
    if lines == [] then []
    else if !(FROM <= lines[0]) then Cut(lines[1..])
    else
      var n := BodyLen(lines[1..]);
      var body := lines[1..][..n];
      [if body != [] && body[n - 1] == [] then body[..n - 1] else body] + Cut(lines[1..][n..])
  }

  /** What an import makes of a file: each body's lines, unescaped. */
  function ReadMbox(file: Bytes): seq<Bytes> {
    var bodies := Cut(FileLines(file));
    seq(|bodies|, i requires 0 <= i < |bodies| => Unescape(Terminated(bodies[i], [NL])))
  }

  // ----- the round trip

  lemma {:induction false} SplitSnoc(raw: Bytes)
    ensures Split(raw + [NL], NL) == Split(raw, NL) + [[]]
  {
    if raw == [] {
      assert raw + [NL] == [NL];
      assert [NL][1..] == [];
    } else {
      assert (raw + [NL])[1..] == raw[1..] + [NL];
      SplitSnoc(raw[1..]);
    }
  }

  lemma {:induction false} EscapeSnoc(raw: Bytes)
    ensures Escape(raw + [NL]) == Escape(raw) + [NL]
  {
    SplitSnoc(raw);
    var lines := Split(raw, NL);
    LineRoundTrip([]);
    assert MapLines(lines + [[]], EscapeLine) == MapLines(lines, EscapeLine) + [[]];
    JoinSnoc(MapLines(lines, EscapeLine));
  }

  lemma {:induction false} JoinSnoc(parts: seq<Bytes>)
    requires parts != []
    ensures Join(parts + [[]], [NL]) == Join(parts, [NL]) + [NL]
  {
    if |parts| == 1 {
      assert (parts + [[]])[1..] == [[]];
    } else {
      assert (parts + [[]])[1..] == parts[1..] + [[]];
      JoinSnoc(parts[1..]);
    }
  }

  /** Escaping keeps the last byte, so trailing line breaks may be dropped before or
      after it. */
  lemma {:induction false} EscapeLast(raw: Bytes)
    requires raw != [] && raw[|raw| - 1] != NL
    ensures Escape(raw) != [] && Escape(raw)[|Escape(raw)| - 1] != NL
  {
    LastSplit(raw);
    LastSplit(Escape(raw));
    EscapedLast(raw);
  }

  lemma {:induction false} EscapedLast(raw: Bytes)
    ensures var lines, escaped := Split(raw, NL), Split(Escape(raw), NL);
            |escaped| == |lines| && (escaped[|escaped| - 1] == [] <==> lines[|lines| - 1] == [])
  {
    EscapedLines(raw);
    hide *;
    var lines := Split(raw, NL);
    LineRoundTrip(lines[|lines| - 1]);
  }

  lemma {:induction false} LastSplit(raw: Bytes)
    ensures Split(raw, NL)[|Split(raw, NL)| - 1] == [] <==> raw == [] || raw[|raw| - 1] == NL
  {
    if raw != [] { LastSplit(raw[1..]); }
  }

  lemma {:induction false} StripCommutes(raw: Bytes)
    ensures RStrip(Escape(raw)) == Escape(RStrip(raw))
  {
    if raw != [] && raw[|raw| - 1] == NL {
      var init := raw[..|raw| - 1];
      assert raw == init + [NL];
      EscapeSnoc(init);
      StripCommutes(init);
      assert (Escape(init) + [NL])[..|Escape(init)|] == Escape(init);
    } else if raw == [] {
      assert Split(raw, NL) == [[]];
      LineRoundTrip([]);
    } else {
      EscapeLast(raw);
    }
  }

  /** The lines one message adds to the file. */
  function MessageLines(m: Message): seq<Bytes> {
    [m.separator] + Split(RStrip(Escape(m.raw)), NL) + [[]]
  }

  lemma {:induction false} ToMboxLines(m: Message)
    ensures ToMbox(m) == Terminated(MessageLines(m), [NL])
  {
    var body := RStrip(Escape(m.raw));
    var lines := Split(body, NL);
    JoinOfSplit(body, NL);
    TerminatedIsJoin(lines, [NL]);
    TerminatedConcat([m.separator] + lines, [[]], [NL]);
    TerminatedConcat([m.separator], lines, [NL]);
    assert [m.separator][1..] == [];
    assert Terminated([m.separator], [NL]) == m.separator + [NL];
    var blank: seq<Bytes> := [[]];
    assert blank[1..] == [];
    assert Terminated(blank, [NL]) == [NL];
  }

  function AllLines(ms: seq<Message>): seq<Bytes> {
    if ms == [] then [] else MessageLines(ms[0]) + AllLines(ms[1..])
  }

  lemma {:induction false} StreamLines(ms: seq<Message>)
    requires forall m :: m in ms ==> ProperSeparator(m.separator)
    ensures Stream(ms) == Terminated(AllLines(ms), [NL])
    ensures forall i :: 0 <= i < |AllLines(ms)| ==> NL !in AllLines(ms)[i]
  {
    if ms != [] {
      ToMboxLines(ms[0]);
      StreamLines(ms[1..]);
      TerminatedConcat(MessageLines(ms[0]), AllLines(ms[1..]), [NL]);
    }
  }

  lemma {:induction false} StreamFileLines(ms: seq<Message>)
    requires forall m :: m in ms ==> ProperSeparator(m.separator)
    ensures FileLines(Stream(ms)) == AllLines(ms)
  {
    StreamLines(ms);
    SplitTerminated(AllLines(ms), NL);
    assert (AllLines(ms) + [[]])[..|AllLines(ms)|] == AllLines(ms);
  }

  lemma {:induction false} BodyLenExact(body: seq<Bytes>, rest: seq<Bytes>)
    requires forall i :: 0 <= i < |body| ==> !(FROM <= body[i])
    requires rest == [] || FROM <= rest[0]
    ensures BodyLen(body + rest) == |body|
  {
    if body == [] {
      assert body + rest == rest;
    } else {
      assert (body + rest)[1..] == body[1..] + rest;
      BodyLenExact(body[1..], rest);
    }
  }

  /** Cutting finds the first message's body whole and carries on at the next
      separator. */
  lemma {:induction false} CutFirst(separator: Bytes, lines: seq<Bytes>, rest: seq<Bytes>)
    requires FROM <= separator && forall i :: 0 <= i < |lines| ==> !(FROM <= lines[i])
    requires rest == [] || FROM <= rest[0]
    ensures Cut([separator] + lines + [[]] + rest) == [lines] + Cut(rest)
  {
    var body := lines + [[]];
    var all := [separator] + lines + [[]] + rest;
    assert all[1..] == body + rest;
    assert FROM[0] == 70;
    BodyLenExact(body, rest);
    assert (body + rest)[..|body|] == body && (body + rest)[|body|..] == rest;
    assert body[..|body| - 1] == lines;
  }

  lemma {:induction false} CutMessages(ms: seq<Message>)
    requires forall m :: m in ms ==> ProperSeparator(m.separator)
    ensures |Cut(AllLines(ms))| == |ms|
    ensures forall i :: 0 <= i < |ms| ==> Cut(AllLines(ms))[i] == Split(Escape(RStrip(ms[i].raw)), NL)
  {
    hide Cut, Escape, RStrip, Split, IsFromLine;
    if ms == [] {
      CutNothing();
    } else {
      var m, rest := ms[0], AllLines(ms[1..]);
      StripCommutes(m.raw);
      EscapeRoundTrip(RStrip(m.raw));
      var lines := Split(Escape(RStrip(m.raw)), NL);
      RestStarts(ms[1..]);
      CutFirst(m.separator, lines, rest);
      assert AllLines(ms) == [m.separator] + lines + [[]] + rest;
      CutMessages(ms[1..]);
    }
  }

  lemma {:induction false} CutNothing()
    ensures Cut([]) == []
  {
  }

  lemma {:induction false} RestStarts(ms: seq<Message>)
    requires forall m :: m in ms ==> ProperSeparator(m.separator)
    ensures AllLines(ms) == [] || FROM <= AllLines(ms)[0]
  {
    if ms != [] { assert ms[0] in ms; }
  }

  /** Writing any messages and reading the stream back gives the same messages in
      the same order, each with its trailing line breaks made one. */
  lemma {:induction false} MboxRoundTrip(ms: seq<Message>)
    requires forall m :: m in ms ==> ProperSeparator(m.separator)
    ensures |ReadMbox(Stream(ms))| == |ms|
    ensures forall i :: 0 <= i < |ms| ==> ReadMbox(Stream(ms))[i] == RStrip(ms[i].raw) + [NL]
  {
    StreamFileLines(ms);
    CutMessages(ms);
    var bodies := Cut(AllLines(ms));
    forall i | 0 <= i < |ms| ensures Unescape(Terminated(bodies[i], [NL])) == RStrip(ms[i].raw) + [NL] {
      var raw := RStrip(ms[i].raw);
      TerminatedIsJoin(bodies[i], [NL]);
      JoinOfSplit(Escape(raw), NL);
      EscapeSnoc(raw);
      EscapeRoundTrip(raw + [NL]);
    }
  }

  // ----- which lines change

  function Quotes(n: nat): Bytes { seq(n, i => GT) }

  /** `From ` after any number of `>`. */
  ghost predicate FromAfter(line: Bytes, n: nat) { Quotes(n) + FROM <= line }

  lemma {:induction false} QuotesCons(line: Bytes, n: nat)
    requires n > 0
    ensures FromAfter(line, n) <==> line != [] && line[0] == GT && FromAfter(line[1..], n - 1)
  {
    var q, q' := Quotes(n) + FROM, Quotes(n - 1) + FROM;
    assert q == [GT] + q';
    if line != [] { assert line == [line[0]] + line[1..]; }
  }

  lemma {:induction false} FromLineIff(line: Bytes)
    ensures IsFromLine(line) <==> exists n :: FromAfter(line, n)
  {
    assert Quotes(0) + FROM == FROM;
    assert FROM <= line <==> FromAfter(line, 0);
    if line != [] && line[0] == GT {
      FromLineIff(line[1..]);
      if n: nat :| FromAfter(line[1..], n) { QuotesCons(line, n + 1); }
    }
    if n: nat :| FromAfter(line, n) {
      if n > 0 {
        QuotesCons(line, n);
        assert FromAfter(line[1..], n - 1);
      }
    }
  }

  /** Escaping adds one `>` to exactly the lines that are `From ` after any number of
      them, and changes no other line. */
  lemma {:induction false} EscapeExact(raw: Bytes)
    ensures var lines, escaped := Split(raw, NL), Split(Escape(raw), NL);
            && |escaped| == |lines|
            && forall i :: 0 <= i < |lines| ==>
                 escaped[i] == if exists n :: FromAfter(lines[i], n) then [GT] + lines[i] else lines[i]
  {
    EscapedLines(raw);
    var lines := Split(raw, NL);
    hide IsFromLine, Escape, Split;
    forall i | 0 <= i < |lines| ensures IsFromLine(lines[i]) <==> exists n :: FromAfter(lines[i], n) { FromLineIff(lines[i]); }
  }

  /** Unescaping takes one `>` from exactly the lines that are `From ` after at least
      one. */
  lemma {:induction false} UnescapeExact(raw: Bytes)
    ensures var lines, plain := Split(raw, NL), Split(Unescape(raw), NL);
            && |plain| == |lines|
            && forall i :: 0 <= i < |lines| ==>
                 plain[i] == if exists n :: n > 0 && FromAfter(lines[i], n) then lines[i][1..] else lines[i]
  {
    var lines := Split(raw, NL);
    forall i | 0 <= i < |lines|
      ensures UnescapeLine(lines[i]) == if exists n :: n > 0 && FromAfter(lines[i], n) then lines[i][1..] else lines[i]
    {
      UnescapeLineIff(lines[i]);
    }
    hide UnescapeLine, FromAfter;
    SplitOfJoin(MapLines(lines, UnescapeLine), NL);
  }

  lemma {:induction false} UnescapeLineIff(line: Bytes)
    ensures UnescapeLine(line) == if exists n :: n > 0 && FromAfter(line, n) then line[1..] else line
  {
    if line != [] {
      FromLineIff(line[1..]);
      if n: nat :| n > 0 && FromAfter(line, n) {
        QuotesCons(line, n);
        assert FromAfter(line[1..], n - 1);
      }
      if line[0] == GT {
        if n: nat :| FromAfter(line[1..], n) { QuotesCons(line, n + 1); }
      }
    } else if n: nat :| n > 0 && FromAfter(line, n) {
      QuotesCons(line, n);
    }
  }

  /** In a written stream the lines that start `From ` are the separators, each with a
      blank line before it unless it is the first, and the stream ends in one. */
  ghost predicate BlankBefore(lines: seq<Bytes>) {
    && (forall i :: 0 < i < |lines| && FROM <= lines[i] ==> lines[i - 1] == [])
    && (lines != [] ==> FROM <= lines[0] && lines[|lines| - 1] == [])
  }

  lemma {:induction false} BlankBeforeConcat(separator: Bytes, body: seq<Bytes>, rest: seq<Bytes>)
    requires FROM <= separator && (forall i :: 0 <= i < |body| ==> !(FROM <= body[i])) && BlankBefore(rest)
    ensures BlankBefore([separator] + body + [[]] + rest)
  {
    assert FROM[0] == 70;
    var lines := [separator] + body + [[]] + rest;
    forall i | 0 < i < |lines| && FROM <= lines[i] ensures lines[i - 1] == [] {
      if i > |body| + 1 {
        assert lines[i] == rest[i - |body| - 2];
        if i > |body| + 2 { assert lines[i - 1] == rest[i - |body| - 3]; }
      }
    }
  }

  lemma {:induction false} StreamShape(ms: seq<Message>)
    requires forall m :: m in ms ==> ProperSeparator(m.separator)
    ensures BlankBefore(FileLines(Stream(ms)))
  {
    StreamFileLines(ms);
    if ms != [] {
      var m := ms[0];
      StreamShape(ms[1..]);
      StreamFileLines(ms[1..]);
      StripCommutes(m.raw);
      EscapeRoundTrip(RStrip(m.raw));
      hide Escape, RStrip, Split, FileLines, Stream, BlankBefore;
      BlankBeforeConcat(m.separator, Split(Escape(RStrip(m.raw)), NL), AllLines(ms[1..]));
    } else {
      hide FileLines, Stream;
    }
  }
}
