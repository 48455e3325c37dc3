/** LMTP delivery: DATA transparency and per-recipient replies
    (src/lightr/dovecot/lmtp.py). */
module Lmtp {
  import opened Text
  import opened Lines

  const CR: Byte := 13
  const LF: Byte := 10
  const DOT: Byte := 46
  const CRLF: Bytes := [13, 10]

  // ----- what is written

  /** `payload.replace(b"\r\n", b"\n")` */
  function CrLfToLf(s: Bytes): Bytes
    decreases |s|
  {
    if s == [] then []
    else if |s| >= 2 && s[0] == CR && s[1] == LF then [LF] + CrLfToLf(s[2..])
    else [s[0]] + CrLfToLf(s[1..])
  }

  /** `.replace(b"\r", b"\n")` */
  function CrToLf(s: Bytes): Bytes {
    seq(|s|, i requires 0 <= i < |s| => if s[i] == CR then LF else s[i])
  }

  function Normalise(payload: Bytes): Bytes { CrToLf(CrLfToLf(payload)) }

  function StuffLine(line: Bytes): Bytes { if line != [] && line[0] == DOT then [DOT] + line else line }

  function Stuffed(lines: seq<Bytes>): (r: seq<Bytes>)
    ensures |r| == |lines|
  {
    seq(|lines|, i requires 0 <= i < |lines| => StuffLine(lines[i]))
  }

  function DotStuff(payload: Bytes): Bytes { Lines.Join(Stuffed(Lines.Split(Normalise(payload), LF)), CRLF) }

  /** The whole DATA section. */
  function Wire(payload: Bytes): Bytes { DotStuff(payload) + CRLF + [DOT] + CRLF }

  // ----- what a receiver makes of it

  /** The first line of a stream and what follows its CRLF. */
  function TakeLine(s: Bytes): (r: Option<(Bytes, Bytes)>)
    ensures r.Some? ==> |r.value.1| < |s|
  {
    if |s| < 2 then None
    else if s[0] == CR && s[1] == LF then Some(([], s[2..]))
    else
      match TakeLine(s[1..])
      case None => None
      case Some((line, rest)) => Some(([s[0]] + line, rest))
  }

  /** RFC 5321 section 4.5.2: stop at the first line that is a single dot, and drop
      the leading dot of every other line that has one. */
  function Receive(s: Bytes): Option<(seq<Bytes>, Bytes)>
    decreases |s|
  {
    match TakeLine(s)
    case None => None
    case Some((line, rest)) =>
      if line == [DOT] then Some(([], rest))
      else
        match Receive(rest)
        case None => None
        case Some((more, rest')) => Some(([if line != [] && line[0] == DOT then line[1..] else line] + more, rest'))
  }

  // ----- the payload's own lines

  /** Lines ended by any of CRLF, a lone CR, or a lone LF. */
  function EolLines(s: Bytes): (r: seq<Bytes>)
    ensures |r| >= 1
    ensures forall i :: 0 <= i < |r| ==> CR !in r[i] && LF !in r[i]
    decreases |s|
  {
    if s == [] then [[]]
    else if |s| >= 2 && s[0] == CR && s[1] == LF then [[]] + EolLines(s[2..])
    else if s[0] == CR || s[0] == LF then [[]] + EolLines(s[1..])
    else
      var r := EolLines(s[1..]);
      [[s[0]] + r[0]] + r[1..]
  }

  /** The two replacements and the split cut the payload at every line ending. */
  lemma {:induction false} NormaliseSplits(payload: Bytes)
    ensures Lines.Split(Normalise(payload), LF) == EolLines(payload)
    decreases |payload|
  {
    if payload != [] {
      var n := if |payload| >= 2 && payload[0] == CR && payload[1] == LF then 2 else 1;
      NormaliseSplits(payload[n..]);
      var head := if n == 2 then LF else payload[0];
      assert CrLfToLf(payload) == [head] + CrLfToLf(payload[n..]);
      assert Normalise(payload) == [if head == CR then LF else head] + Normalise(payload[n..]);
      assert Normalise(payload)[1..] == Normalise(payload[n..]);
    }
  }

  lemma {:induction false} TakeLineExact(line: Bytes, rest: Bytes)
    requires CR !in line
    ensures TakeLine(line + CRLF + rest) == Some((line, rest))
  {
    var s := line + CRLF + rest;
    if line == [] {
      assert s == CRLF + rest && s[2..] == rest;
    } else {
      assert s[1..] == line[1..] + CRLF + rest;
      TakeLineExact(line[1..], rest);
      assert [line[0]] + line[1..] == line;
    }
  }

  lemma {:induction false} ReceiveLines(lines: seq<Bytes>, rest: Bytes)
    requires forall i :: 0 <= i < |lines| ==> CR !in lines[i]
    ensures Receive(Lines.Terminated(Stuffed(lines), CRLF) + [DOT] + CRLF + rest) == Some((lines, rest))
  {
    var wire := Lines.Terminated(Stuffed(lines), CRLF) + [DOT] + CRLF + rest;
    if lines == [] {
      assert wire == [DOT] + CRLF + rest;
      TakeLineExact([DOT], rest);
    } else {
      var first := StuffLine(lines[0]);
      assert Stuffed(lines)[1..] == Stuffed(lines[1..]);
      var tail := Lines.Terminated(Stuffed(lines[1..]), CRLF) + [DOT] + CRLF + rest;
      assert wire == first + CRLF + tail;
      TakeLineExact(first, tail);
      ReceiveLines(lines[1..], rest);
      assert lines[0] != [] && lines[0][0] == DOT ==> first[1..] == lines[0] && |first| >= 2;
      assert lines == [lines[0]] + lines[1..];
    }
  }

  /** For every payload, a receiver recovers exactly its lines and stops exactly at
      the end marker, whatever follows. */
  lemma {:induction false} DataTransparent(payload: Bytes, rest: Bytes)
    ensures Receive(Wire(payload) + rest) == Some((EolLines(payload), rest))
  {
    NormaliseSplits(payload);
    var lines := EolLines(payload);
    Lines.TerminatedIsJoin(Stuffed(lines), CRLF);
    assert Wire(payload) + rest == Lines.Terminated(Stuffed(lines), CRLF) + [DOT] + CRLF + rest;
    ReceiveLines(lines, rest);
  }

  // ----- one transaction

  /** One line read from the server. */
  datatype Reply = Reply(code: int, more: bool, text: string) | Malformed | Closed

  datatype RecipientStatus = RecipientStatus(recipient: string, code: int, text: string)

  predicate IsOk(s: RecipientStatus) { 200 <= s.code < 300 }

  datatype Sent = Lhlo | MailFrom(sender: string) | RcptTo(recipient: string) | Data | Payload(bytes: Bytes) | Quit

  /** The statuses of a delivery, or the error it raised. */
  datatype Outcome = Delivered(statuses: seq<RecipientStatus>) | LmtpError

  /** The server's lines, read one at a time; after the last the connection is
      closed. */
  function ReplyAt(replies: seq<Reply>, i: nat): Reply { if i < |replies| then replies[i] else Closed }

  /** The `n` lines from `i` on are all well-formed replies. */
  ghost predicate Answered(replies: seq<Reply>, i: nat, n: nat) {
    forall j: nat :: i <= j < i + n ==> ReplyAt(replies, j).Reply?
  }

  /** The statuses of recipients answered by `replies[i..]`, in order. */
  ghost function Answers(recipients: seq<string>, replies: seq<Reply>, i: nat): seq<RecipientStatus>
    requires Answered(replies, i, |recipients|)
  {
    seq(|recipients|, k requires 0 <= k < |recipients| =>
      RecipientStatus(recipients[k], ReplyAt(replies, i + k).code, ReplyAt(replies, i + k).text))
  }

  function Failures(statuses: seq<RecipientStatus>): seq<RecipientStatus> {
    if statuses == [] then []
    else Failures(statuses[..|statuses| - 1])
         + (if IsOk(statuses[|statuses| - 1]) then [] else [statuses[|statuses| - 1]])
  }

  function DeliveredTo(statuses: seq<RecipientStatus>): seq<string> {
    if statuses == [] then []
    else DeliveredTo(statuses[..|statuses| - 1])
         + (if IsOk(statuses[|statuses| - 1]) then [statuses[|statuses| - 1].recipient] else [])
  }

  function Recipients(statuses: seq<RecipientStatus>): (r: seq<string>)
    ensures |r| == |statuses|
  {
    seq(|statuses|, i requires 0 <= i < |statuses| => statuses[i].recipient)
  }

  /** How many lines the LHLO answer takes from line `i` on, or None when it is
      refused or breaks off. */
  function LhloLen(replies: seq<Reply>, i: nat): Option<nat>
    decreases |replies| - i
  {
    match ReplyAt(replies, i)
    case Reply(code, more, _) =>
      if code != 250 then None
      else if !more then Some(1)
      else (match LhloLen(replies, i + 1) case None => None case Some(n) => Some(n + 1))
    case _ => None
  }

  /** What is sent before any message data: one RCPT for each recipient, in order. */
  function Opening(sender: string, recipients: seq<string>): seq<Sent> {
    [Lhlo, MailFrom(sender)] + seq(|recipients|, k requires 0 <= k < |recipients| => RcptTo(recipients[k]))
  }

  predicate Says(reply: Reply, code: int) { reply.Reply? && reply.code == code }

  /** The reply stream carries a transaction up to its last recipient: `r` is the
      first line that answers a RCPT. */
  ghost predicate Offered(recipients: seq<string>, replies: seq<Reply>, r: nat) {
    && Says(ReplyAt(replies, 0), 220)
    && LhloLen(replies, 1).Some?
    && r == LhloLen(replies, 1).value + 2
    && Says(ReplyAt(replies, r - 1), 250)
    && Answered(replies, r, |recipients|)
  }

  /** The recipients the server accepted, from the answers to RCPT. */
  ghost function Accepted(recipients: seq<string>, replies: seq<Reply>, r: nat): seq<string>
    requires Answered(replies, r, |recipients|)
  {
    DeliveredTo(Answers(recipients, replies, r))
  }

  /** The stream answers everything that is asked of it: the recipients, and, when
      somebody was accepted, DATA with 354 and one reply for each accepted. */
  ghost predicate Completes(recipients: seq<string>, replies: seq<Reply>, r: nat) {
    && Offered(recipients, replies, r)
    && var accepted := Accepted(recipients, replies, r);
       (accepted != [] ==>
          Says(ReplyAt(replies, r + |recipients|), 354) && Answered(replies, r + |recipients| + 1, |accepted|))
  }

  /** How many of the `n` lines from `i` on are well-formed before one is not. */
  function AnsweredLen(replies: seq<Reply>, i: nat, n: nat): (k: nat)
    ensures k <= n
    decreases n
  {
    if n == 0 || !ReplyAt(replies, i).Reply? then 0 else 1 + AnsweredLen(replies, i + 1, n - 1)
  }

  lemma {:induction false} AnsweredUntil(replies: seq<Reply>, i: nat, n: nat, k: nat)
    requires k <= n && Answered(replies, i, k) && (k < n ==> !ReplyAt(replies, i + k).Reply?)
    ensures AnsweredLen(replies, i, n) == k
    decreases n
  {
    if k > 0 {
      assert ReplyAt(replies, i).Reply?;
      AnsweredUntil(replies, i + 1, n - 1, k - 1);
    }
  }

  /** What has been sent when the transaction ends, wherever it ends: each command is
      sent only after the answer to the one before it, DATA only when somebody was
      accepted, and the message only after a 354. */
  ghost function SentBy(sender: string, recipients: seq<string>, payload: Bytes, replies: seq<Reply>): seq<Sent> {
    if !Says(ReplyAt(replies, 0), 220) then []
    else if LhloLen(replies, 1).None? then [Lhlo]
    else
      var r := LhloLen(replies, 1).value + 2;
      var answered := AnsweredLen(replies, r, |recipients|);
      if !Says(ReplyAt(replies, r - 1), 250) then [Lhlo, MailFrom(sender)]
      else if answered < |recipients| then Opening(sender, recipients[..answered + 1])
      else
        AllAnswered(replies, r, |recipients|);
        SentOn(Opening(sender, recipients), Accepted(recipients, replies, r), payload, replies, r + |recipients|)
  }

  /** From the answer to DATA on, which line `data` is. */
  ghost function SentOn(opening: seq<Sent>, accepted: seq<string>, payload: Bytes, replies: seq<Reply>, data: nat): seq<Sent> {
    if accepted == [] then opening + [Quit]
    else if !Says(ReplyAt(replies, data), 354) then opening + [Data]
    else if Answered(replies, data + 1, |accepted|) then opening + [Data] + [Payload(Wire(payload))] + [Quit]
    else opening + [Data] + [Payload(Wire(payload))]
  }

  lemma {:induction false} AllAnswered(replies: seq<Reply>, i: nat, n: nat)
    ensures AnsweredLen(replies, i, n) == n <==> Answered(replies, i, n)
    decreases n
  {
    if n > 0 && ReplyAt(replies, i).Reply? {
      AllAnswered(replies, i + 1, n - 1);
      assert Answered(replies, i, n) <==> Answered(replies, i + 1, n - 1) by {
        if Answered(replies, i + 1, n - 1) {
          forall j: nat | i <= j < i + n ensures ReplyAt(replies, j).Reply? { assert j == i || i + 1 <= j < i + 1 + (n - 1); }
        }
      }
    }
  }

  lemma {:induction false} SentBeforeRcpt(sender: string, recipients: seq<string>, payload: Bytes, replies: seq<Reply>)
    ensures var sent := SentBy(sender, recipients, payload, replies);
            && (!Says(ReplyAt(replies, 0), 220) ==> sent == [])
            && (Says(ReplyAt(replies, 0), 220) && LhloLen(replies, 1).None? ==> sent == [] + [Lhlo])
            && (Says(ReplyAt(replies, 0), 220) && LhloLen(replies, 1).Some? && !Says(ReplyAt(replies, LhloLen(replies, 1).value + 1), 250)
                ==> sent == [] + [Lhlo] + [MailFrom(sender)])
    ensures Opening(sender, []) == [] + [Lhlo] + [MailFrom(sender)]
  {
    hide LhloLen, AnsweredLen, Accepted, SentOn;
  }

  /** Where an unanswered RCPT leaves it. */
  lemma {:induction false} SentToRcpt(sender: string, recipients: seq<string>, payload: Bytes, replies: seq<Reply>, n: nat)
    requires Says(ReplyAt(replies, 0), 220) && LhloLen(replies, 1).Some? && n < |recipients|
    requires var r := LhloLen(replies, 1).value + 2;
             Says(ReplyAt(replies, r - 1), 250) && Answered(replies, r, n) && !ReplyAt(replies, r + n).Reply?
    ensures SentBy(sender, recipients, payload, replies) == Opening(sender, recipients[..n + 1])
  {
    AnsweredUntil(replies, LhloLen(replies, 1).value + 2, |recipients|, n);
    hide Opening, LhloLen, Answered, AnsweredLen, Accepted, SentOn;
  }

  /** Once every RCPT is answered. */
  lemma {:induction false} SentAfterRcpt(sender: string, recipients: seq<string>, payload: Bytes, replies: seq<Reply>, r: nat)
    requires Offered(recipients, replies, r)
    ensures SentBy(sender, recipients, payload, replies)
         == SentOn(Opening(sender, recipients), Accepted(recipients, replies, r), payload, replies, r + |recipients|)
  {
    hide Opening, LhloLen, AnsweredLen, Answered, Accepted, SentOn, Says, ReplyAt;
    var n := |recipients|;
    AllAnswered(replies, r, n);
    assert AnsweredLen(replies, r, n) == n;
  }

  /** The message goes out only once somebody was accepted and DATA was answered with
      354, and then as the payload's wire form. */
  lemma {:induction false} PayloadAfter354(sender: string, recipients: seq<string>, payload: Bytes, replies: seq<Reply>, bytes: Bytes)
    requires Payload(bytes) in SentBy(sender, recipients, payload, replies)
    ensures bytes == Wire(payload) && LhloLen(replies, 1).Some?
    ensures var r := LhloLen(replies, 1).value + 2;
            && Offered(recipients, replies, r) && Accepted(recipients, replies, r) != []
            && Says(ReplyAt(replies, r + |recipients|), 354)
  {
    hide LhloLen, Answers, DeliveredTo, Wire, AnsweredLen;
    if LhloLen(replies, 1).Some? { AllAnswered(replies, LhloLen(replies, 1).value + 2, |recipients|); }
  }

  lemma {:induction false} OpeningStep(sender: string, recipients: seq<string>, n: nat)
    requires n < |recipients|
    ensures Opening(sender, recipients[..n + 1]) == Opening(sender, recipients[..n]) + [RcptTo(recipients[n])]
    ensures Opening(sender, []) == [Lhlo, MailFrom(sender)]
  {
  }

  /** `_read_multiline(reader, 250)` from line `start` on: the line after the answer,
      or None when the answer is refused or breaks off. */
  method ReadMultiline(replies: seq<Reply>, start: nat) returns (next: Option<nat>)
    ensures next == match LhloLen(replies, start) case None => None case Some(n) => Some(start + n)
  {
    var i := start;
    while true
      invariant start <= i
      invariant LhloLen(replies, start) == match LhloLen(replies, i) case None => None case Some(n) => Some(n + i - start)
      decreases |replies| - i
    {
      var reply := ReplyAt(replies, i);
      if !reply.Reply? || reply.code != 250 { return None; }
      i := i + 1;
      if !reply.more { return Some(i); }
    }
  }

  /** Reads a reply stream through one transaction. It returns exactly when the
      stream completes; then the lines read after the RCPTs decide who is accepted,
      DATA and the message are sent exactly when somebody was, the lines after DATA go
      in order to the accepted, and each recipient has exactly one status. Whether
      these lines are the recipients' own replies is what `OwnRepliesIff` decides. */
  method Transaction(sender: string, recipients: seq<string>, payload: Bytes, replies: seq<Reply>)
    returns (outcome: Outcome, sent: seq<Sent>)
    ensures outcome.Delivered? <==> LhloLen(replies, 1).Some? && Completes(recipients, replies, LhloLen(replies, 1).value + 2)
    ensures outcome.Delivered? ==> multiset(Recipients(outcome.statuses)) == multiset(recipients)
    ensures outcome.Delivered? ==>
              var r := LhloLen(replies, 1).value + 2;
              var accepted := Accepted(recipients, replies, r);
              outcome.statuses == Failures(Answers(recipients, replies, r))
                + (if accepted == [] then [] else Answers(accepted, replies, r + |recipients| + 1))
    ensures sent == SentBy(sender, recipients, payload, replies)
  {
    hide LhloLen, Answers, DeliveredTo, Failures, Recipients, Wire, Opening, SentBy, Says, ReplyAt;
    SentBeforeRcpt(sender, recipients, payload, replies);
    sent := [];
    if !Says(ReplyAt(replies, 0), 220) { return LmtpError, sent; }
    sent := sent + [Lhlo];
    var next := ReadMultiline(replies, 1);
    if next.None? { return LmtpError, sent; }
    ghost var r := next.value + 1;
    sent := sent + [MailFrom(sender)];
    if !Says(ReplyAt(replies, next.value), 250) { return LmtpError, sent; }
    var i := next.value + 1;
    var accepted: seq<string>, rejected: seq<RecipientStatus> := [], [];
    NothingOffered(sender, recipients, replies, r);
    for n := 0 to |recipients|
      invariant i == r + n && Answered(replies, r, n)
      invariant accepted == DeliveredTo(Answers(recipients[..n], replies, r))
      invariant rejected == Failures(Answers(recipients[..n], replies, r))
      invariant sent == Opening(sender, recipients[..n])
    {
      sent := sent + [RcptTo(recipients[n])];
      OpeningStep(sender, recipients, n);
      var reply := ReplyAt(replies, i);
      if !reply.Reply? {
        SentToRcpt(sender, recipients, payload, replies, n);
        return LmtpError, sent;
      }
      i := i + 1;
      if 200 <= reply.code < 300 {
        accepted := accepted + [recipients[n]];
      } else {
        rejected := rejected + [RecipientStatus(recipients[n], reply.code, reply.text)];
      }
      OfferStep(sender, recipients, n, replies, r);
    }
    assert recipients[..|recipients|] == recipients;
    SentAfterRcpt(sender, recipients, payload, replies, r);
    OneStatusEach(recipients, replies, r);
    if accepted == [] {
      assert rejected == rejected + [];
      sent := sent + [Quit];
      return Delivered(rejected), sent;
    }
    sent := sent + [Data];
    if !Says(ReplyAt(replies, i), 354) { return LmtpError, sent; }
    i := i + 1;
    sent := sent + [Payload(Wire(payload))];
    var later := CollectStatuses(accepted, replies, i);
    if later.None? { return LmtpError, sent; }
    AcceptedStatusEach(recipients, replies, r);
    sent := sent + [Quit];
    outcome := Delivered(rejected + later.value);
  }

  /** The loop after DATA: one line for each accepted recipient, in order. */
  method CollectStatuses(accepted: seq<string>, replies: seq<Reply>, start: nat)
    returns (statuses: Option<seq<RecipientStatus>>)
    ensures statuses.Some? <==> Answered(replies, start, |accepted|)
    ensures statuses.Some? ==> statuses.value == Answers(accepted, replies, start)
  {
    var i, read := start, [];
    for n := 0 to |accepted|
      invariant i == start + n && Answered(replies, start, n)
      invariant read == Answers(accepted[..n], replies, start)
    {
      var reply := ReplyAt(replies, i);
      if !reply.Reply? { return None; }
      i := i + 1;
      read := read + [RecipientStatus(accepted[n], reply.code, reply.text)];
    }
    assert accepted[..|accepted|] == accepted;
    statuses := Some(read);
  }

  lemma {:induction false} NothingOffered(sender: string, recipients: seq<string>, replies: seq<Reply>, i: nat)
    ensures DeliveredTo(Answers(recipients[..0], replies, i)) == []
    ensures Failures(Answers(recipients[..0], replies, i)) == []
    ensures Opening(sender, recipients[..0]) == [Lhlo, MailFrom(sender)]
  {
  }

  lemma {:induction false} OfferStep(sender: string, recipients: seq<string>, n: nat, replies: seq<Reply>, i: nat)
    requires n < |recipients| && Answered(replies, i, n + 1)
    ensures Opening(sender, recipients[..n + 1]) == Opening(sender, recipients[..n]) + [RcptTo(recipients[n])]
    ensures var before, after := Answers(recipients[..n], replies, i), Answers(recipients[..n + 1], replies, i);
            var reply := ReplyAt(replies, i + n);
            var status := RecipientStatus(recipients[n], reply.code, reply.text);
            && DeliveredTo(after) == DeliveredTo(before) + (if IsOk(status) then [recipients[n]] else [])
            && Failures(after) == Failures(before) + (if IsOk(status) then [] else [status])
  {
    var after := Answers(recipients[..n + 1], replies, i);
    assert after[..n] == Answers(recipients[..n], replies, i);
  }

  lemma {:induction false} RecipientsConcat(a: seq<RecipientStatus>, b: seq<RecipientStatus>)
    ensures Recipients(a + b) == Recipients(a) + Recipients(b)
  {
  }

  /** Delivered and failed split the statuses: every recipient is in one of them. */
  lemma {:induction false} DeliveredAndFailed(statuses: seq<RecipientStatus>)
    ensures multiset(DeliveredTo(statuses)) + multiset(Recipients(Failures(statuses))) == multiset(Recipients(statuses))
  {
    if statuses != [] {
      var init, last := statuses[..|statuses| - 1], statuses[|statuses| - 1];
      DeliveredAndFailed(init);
      RecipientsConcat(init, [last]);
      RecipientsConcat(Failures(init), [last]);
      OneRecipient(last);
      assert statuses == init + [last];
      assert if IsOk(last) then DeliveredTo(statuses) == DeliveredTo(init) + [last.recipient] && Failures(statuses) == Failures(init)
        else DeliveredTo(statuses) == DeliveredTo(init) && Failures(statuses) == Failures(init) + [last];
      hide *;
    }
  }

  lemma {:induction false} OneRecipient(s: RecipientStatus)
    ensures Recipients([s]) == [s.recipient]
  {
  }

  /** The failed statuses are exactly those that are not ok. */
  lemma {:induction false} FailedAreNotOk(statuses: seq<RecipientStatus>, s: RecipientStatus)
    ensures s in Failures(statuses) <==> s in statuses && !(200 <= s.code < 300)
  {
    if statuses != [] {
      var init, last := statuses[..|statuses| - 1], statuses[|statuses| - 1];
      assert statuses == init + [last];
      FailedAreNotOk(init, s);
    }
  }

  lemma {:induction false} AnswersRecipients(recipients: seq<string>, replies: seq<Reply>, i: nat)
    requires Answered(replies, i, |recipients|)
    ensures Recipients(Answers(recipients, replies, i)) == recipients
  {
  }

  /** The refused and the accepted together are the recipients. */
  lemma {:induction false} OneStatusEach(recipients: seq<string>, replies: seq<Reply>, r: nat)
    requires Answered(replies, r, |recipients|)
    ensures var first := Answers(recipients, replies, r);
            multiset(DeliveredTo(first)) + multiset(Recipients(Failures(first))) == multiset(recipients)
  {
    DeliveredAndFailed(Answers(recipients, replies, r));
    AnswersRecipients(recipients, replies, r);
  }

  lemma {:induction false} AcceptedStatusEach(recipients: seq<string>, replies: seq<Reply>, r: nat)
    requires Completes(recipients, replies, r) && Accepted(recipients, replies, r) != []
    ensures var accepted := Accepted(recipients, replies, r);
            multiset(Recipients(Failures(Answers(recipients, replies, r)) + Answers(accepted, replies, r + |recipients| + 1)))
            == multiset(recipients)
  {
    hide Answers, Failures, DeliveredTo, Recipients;
    var accepted := Accepted(recipients, replies, r);
    var failed := Failures(Answers(recipients, replies, r));
    var later := Answers(accepted, replies, r + |recipients| + 1);
    RecipientsConcat(failed, later);
    AnswersRecipients(accepted, replies, r + |recipients| + 1);
    OneStatusEach(recipients, replies, r);
  }

  // ----- lines and replies

  /** Whether a line says that its reply goes on (RFC 5321 section 4.2.1). */
  predicate Continued(replies: seq<Reply>, i: nat) { ReplyAt(replies, i).Reply? && ReplyAt(replies, i).more }

  /** The line after the reply that begins at line `i`. */
  function ReplyEnd(replies: seq<Reply>, i: nat): (end: nat)
    ensures end > i && (end == i + 1 <==> !Continued(replies, i))
    decreases |replies| - i
  {
    if Continued(replies, i) then ReplyEnd(replies, i + 1) else i + 1
  }

  /** The line at which reply `k` begins, counting the greeting as reply 0. */
  function ReplyStart(replies: seq<Reply>, k: nat): nat {
    if k == 0 then 0 else ReplyEnd(replies, ReplyStart(replies, k - 1))
  }

  /** Line `i + j` begins reply `k + j`. */
  predicate InStep(replies: seq<Reply>, i: nat, k: nat, j: nat) { ReplyStart(replies, k + j) == i + j }

  /** Line `i + j` is the whole of reply `k + j`. */
  predicate IsWhole(replies: seq<Reply>, i: nat, k: nat, j: nat) {
    ReplyStart(replies, k + j) == i + j && ReplyStart(replies, k + j + 1) == i + j + 1
  }

  /** Each of `n` lines from `i` on is the whole of one of the replies from `k` on. */
  ghost predicate AllWhole(replies: seq<Reply>, i: nat, k: nat, n: nat) {
    forall j: nat :: j < n ==> IsWhole(replies, i, k, j)
  }

  /** Every recipient's status was read from its own reply: RCPT is answered from reply
      3 on, after the greeting, LHLO and MAIL, and each accepted recipient again after
      the answer to DATA. */
  ghost predicate OwnReplies(recipients: seq<string>, replies: seq<Reply>, r: nat)
    requires Answered(replies, r, |recipients|)
  {
    var n, m := |recipients|, |Accepted(recipients, replies, r)|;
    AllWhole(replies, r, 3, n) && AllWhole(replies, r + n + 1, 4 + n, m)
  }

  /** How many lines are read from the first answer to RCPT to the last status. */
  ghost function LinesRead(recipients: seq<string>, replies: seq<Reply>, r: nat): nat
    requires Answered(replies, r, |recipients|)
  {
    var m := |Accepted(recipients, replies, r)|;
    |recipients| + (if m == 0 then 0 else 1 + m)
  }

  /** The answer to LHLO is one reply, however many lines it has, and it is taken exactly
      when every one of them says 250. */
  lemma {:induction false} LhloIsOneReply(replies: seq<Reply>, i: nat)
    ensures LhloLen(replies, i).Some? ==> ReplyEnd(replies, i) == i + LhloLen(replies, i).value
    ensures LhloLen(replies, i).Some? <==> forall j: nat :: i <= j < ReplyEnd(replies, i) ==> Says(ReplyAt(replies, j), 250)
    decreases |replies| - i
  {
    if Continued(replies, i) {
      LhloIsOneReply(replies, i + 1);
      assert ReplyEnd(replies, i) == ReplyEnd(replies, i + 1);
      hide ReplyEnd;
      if LhloLen(replies, i).Some? {
        forall j: nat | i <= j < ReplyEnd(replies, i) ensures Says(ReplyAt(replies, j), 250) { assert j == i || i + 1 <= j; }
      }
    } else {
      assert ReplyEnd(replies, i) == i + 1;
    }
  }

  lemma {:induction false} SingleLines(replies: seq<Reply>, i: nat, k: nat, n: nat, j: nat)
    requires ReplyStart(replies, k) == i && j <= n
    requires forall h: nat :: i <= h < i + n ==> !Continued(replies, h)
    ensures InStep(replies, i, k, j)
  {
    if j > 0 {
      SingleLines(replies, i, k, n, j - 1);
      assert ReplyStart(replies, k + j) == ReplyEnd(replies, i + j - 1);
    }
  }

  /** The client reads one line for each reply, except the answer to LHLO. When a
      transaction completes, every recipient's status is that of its own reply if and
      only if no line read, from the answer to MAIL to the last status, and not the
      greeting either, says that its reply goes on. */
  lemma {:induction false} OwnRepliesIff(recipients: seq<string>, replies: seq<Reply>, r: nat)
    requires recipients != [] && Completes(recipients, replies, r)
    ensures OwnReplies(recipients, replies, r) <==>
            !Continued(replies, 0) && forall j: nat :: r - 1 <= j < r + LinesRead(recipients, replies, r) ==> !Continued(replies, j)
  {
    var n, m, lines := |recipients|, |Accepted(recipients, replies, r)|, LinesRead(recipients, replies, r);
    LhloIsOneReply(replies, 1);
    assert ReplyStart(replies, 1) == ReplyEnd(replies, 0) && ReplyStart(replies, 0) == 0;
    var mail := ReplyStart(replies, 2);
    assert mail == ReplyEnd(replies, ReplyStart(replies, 1));
    assert ReplyStart(replies, 3) == ReplyEnd(replies, mail);
    if Continued(replies, 0) { assert mail > r - 1; } else { assert mail == r - 1; }
    hide Answers, DeliveredTo, LhloLen, Answered;
    if !Continued(replies, 0) && forall j: nat :: r - 1 <= j < r + lines ==> !Continued(replies, j) {
      AllWholeAt(replies, r, 0, n, lines);
      if m > 0 { AllWholeAt(replies, r, n + 1, m, lines); }
    }
    if OwnReplies(recipients, replies, r) {
      assert IsWhole(replies, r, 3, 0);
      forall j: nat | r - 1 <= j < r + lines ensures !Continued(replies, j) {
        if j >= r { OwnNotContinued(replies, r, n, m, j); }
      }
    }
  }

  lemma {:induction false} OwnNotContinued(replies: seq<Reply>, r: nat, n: nat, m: nat, j: nat)
    requires AllWhole(replies, r, 3, n) && AllWhole(replies, r + n + 1, 4 + n, m)
    requires n > 0 && r <= j < r + n + (if m == 0 then 0 else 1 + m)
    ensures !Continued(replies, j)
  {
    hide Continued, ReplyStart;
    if j < r + n {
      WholeNotContinued(replies, r, 3, j - r);
    } else if j == r + n {
      assert IsWhole(replies, r, 3, n - 1) && IsWhole(replies, r + n + 1, 4 + n, 0);
      WholeNotContinued(replies, r, 3, n);
    } else {
      WholeNotContinued(replies, r + n + 1, 4 + n, j - (r + n + 1));
    }
  }

  lemma {:induction false} WholeAt(replies: seq<Reply>, r: nat, k: nat, lines: nat)
    requires r >= 1 && k < lines && ReplyStart(replies, 2) == r - 1
    requires forall j: nat :: r - 1 <= j < r + lines ==> !Continued(replies, j)
    ensures IsWhole(replies, r, 3, k)
  {
    SingleLines(replies, r - 1, 2, lines + 1, k + 1);
    SingleLines(replies, r - 1, 2, lines + 1, k + 2);
  }

  lemma {:induction false} AllWholeAt(replies: seq<Reply>, r: nat, from: nat, n: nat, lines: nat)
    requires r >= 1 && from + n <= lines && ReplyStart(replies, 2) == r - 1
    requires forall j: nat :: r - 1 <= j < r + lines ==> !Continued(replies, j)
    ensures AllWhole(replies, r + from, 3 + from, n)
  {
    var line, reply := r + from, 3 + from;
    forall j: nat | j < n ensures IsWhole(replies, line, reply, j) { WholeAt(replies, r, from + j, lines); }
  }

  lemma {:induction false} WholeNotContinued(replies: seq<Reply>, i: nat, k: nat, j: nat)
    requires IsWhole(replies, i, k, j)
    ensures !Continued(replies, i + j)
  {
    assert ReplyStart(replies, k + j + 1) == ReplyEnd(replies, ReplyStart(replies, k + j));
  }

  const REFUSED_FIRST := [Reply(220, false, ""), Reply(250, false, ""), Reply(250, false, ""),
                          Reply(550, true, "no"), Reply(550, false, "such user"), Reply(250, false, "ok")]

  /** A refusal of two lines is taken for two recipients: the second is reported as
      refused, and gets no message, though its own reply accepts it. */
  lemma {:induction false} ContinuedRefusalShifts(a: string, b: string)
    ensures Completes([a, b], REFUSED_FIRST, 3) && Accepted([a, b], REFUSED_FIRST, 3) == []
    ensures Answers([a, b], REFUSED_FIRST, 3) == [RecipientStatus(a, 550, "no"), RecipientStatus(b, 550, "such user")]
    ensures ReplyStart(REFUSED_FIRST, 4) == 5 && ReplyAt(REFUSED_FIRST, 5) == Reply(250, false, "ok")
  {
    var s := REFUSED_FIRST;
    assert LhloLen(s, 1) == Some(1);
    assert ReplyStart(s, 1) == 1 && ReplyStart(s, 2) == 2 && ReplyStart(s, 3) == 3;
    assert ReplyEnd(s, 4) == 5 && ReplyEnd(s, 3) == 5;
    var answers := Answers([a, b], s, 3);
    assert answers == [RecipientStatus(a, 550, "no"), RecipientStatus(b, 550, "such user")];
    NoneOk(answers);
  }

  lemma {:induction false} NoneOk(statuses: seq<RecipientStatus>)
    requires forall i :: 0 <= i < |statuses| ==> !IsOk(statuses[i])
    ensures DeliveredTo(statuses) == []
  {
    if statuses != [] { NoneOk(statuses[..|statuses| - 1]); }
  }

  // ----- in what order

  /** The failed statuses are the refused answers, in their order; the delivered are the
      recipients of the others, in theirs. */
  lemma {:induction false} SplitInOrder(statuses: seq<RecipientStatus>) returns (failed: seq<nat>, delivered: seq<nat>)
    ensures Picks(statuses, failed, Failures(statuses))
    ensures Picks(Recipients(statuses), delivered, DeliveredTo(statuses))
    ensures forall i: nat :: i in failed <==> i < |statuses| && !IsOk(statuses[i])
    ensures forall i: nat :: i in delivered <==> i < |statuses| && IsOk(statuses[i])
  {
    failed, delivered := [], [];
    if statuses != [] {
      var n := |statuses| - 1;
      var init, last := statuses[..n], statuses[n];
      failed, delivered := SplitInOrder(init);
      RecipientsConcat(init, [last]);
      OneRecipient(last);
      assert statuses == init + [last];
      hide Recipients, Picks, IsOk;
      PicksSnoc(init, failed, Failures(init), last);
      PicksSnoc(Recipients(init), delivered, DeliveredTo(init), last.recipient);
      if IsOk(last) { delivered := delivered + [n]; } else { failed := failed + [n]; }
      assert forall i: nat :: i < |statuses| ==> statuses[i] == if i < n then init[i] else last;
    }
  }
}
