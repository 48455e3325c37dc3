/** The outbound queue (src/lightr/mail/queue.py): its rows and the updates made to
    them. Times are seconds. */
module Queue {
  import opened Text

  datatype Status = Pending | Sending | Sent | Failed | Deferred

  datatype Row = Row(status: Status, attempts: nat, maxAttempts: int, nextRetry: int)

  const RETRY_DELAYS := [60, 300, 1800, 7200, 28800]
  const DEFAULT_MAX_ATTEMPTS := 5

  /** A stored limit of zero reads back as the default. */
  function Limit(stored: int): int { if stored == 0 then DEFAULT_MAX_ATTEMPTS else stored }

  function MaxAttempts(row: Row): int { Limit(row.maxAttempts) }

  predicate Claimable(row: Row) { row.status == Pending || row.status == Deferred }

  function ClassifyFailure(code: int): Status { if 400 <= code < 500 then Deferred else Failed }

  function NextRetryAt(attempts: int, now: int): int {
    var index := if attempts - 1 < 0 then 0 else if attempts - 1 > 4 then 4 else attempts - 1;
    now + RETRY_DELAYS[index]
  }

  function NewRow(maxAttempts: int, now: int): Row { Row(Pending, 0, maxAttempts, now) }

  /** A row after a failed attempt. */
  function FailedRow(row: Row, code: int, now: int): Row {
    var attempts := row.attempts + 1;
    var outcome := ClassifyFailure(code);
    var final := if outcome == Deferred && attempts >= MaxAttempts(row) then Failed else outcome;
    row.(status := final, attempts := attempts, nextRetry := NextRetryAt(attempts, now))
  }

  /** What claim's SELECT may return: distinct due rows, earliest first, all of them
      unless the limit cuts the list. */
  ghost predicate IsDue(rows: map<nat, Row>, due: seq<nat>, now: int, limit: nat) {
    && |due| <= limit
    && (forall i :: 0 <= i < |due| ==> due[i] in rows && Claimable(rows[due[i]]) && rows[due[i]].nextRetry <= now)
    && (forall i, j :: 0 <= i < j < |due| ==> due[i] != due[j] && rows[due[i]].nextRetry <= rows[due[j]].nextRetry)
    && (forall id :: id in rows && id !in due && Claimable(rows[id]) && rows[id].nextRetry <= now ==>
          |due| == limit && forall i :: 0 <= i < |due| ==> rows[due[i]].nextRetry <= rows[id].nextRetry)
  }

  class OutboundQueue {
    var rows: map<nat, Row>

    constructor ()
      ensures rows == map[]
    {
      rows := map[];
    }

    method Enqueue(id: nat, recipients: seq<string>, maxAttempts: int, now: int) returns (accepted: bool)
      requires id !in rows
      modifies this
      ensures accepted <==> recipients != []
      ensures rows == if recipients != [] then old(rows)[id := Row(Pending, 0, maxAttempts, now)] else old(rows)
    {
      if recipients == [] { return false; }
      rows := rows[id := NewRow(maxAttempts, now)];
      accepted := true;
    }

    /** The conditional UPDATE of one row. */
    method TryClaim(id: nat) returns (claimed: bool)
      modifies this
      ensures claimed <==> id in old(rows) && Claimable(old(rows)[id])
      ensures rows == if claimed then old(rows)[id := old(rows)[id].(status := Sending)] else old(rows)
    {
      claimed := id in rows && Claimable(rows[id]);
      if claimed { rows := rows[id := rows[id].(status := Sending)]; }
    }

    /** A claim no other sender interrupts takes exactly the selected rows. */
    method Claim(due: seq<nat>, now: int, limit: nat) returns (claimed: seq<nat>)
      requires IsDue(rows, due, now, limit)
      modifies this
      ensures claimed == due
      ensures rows.Keys == old(rows).Keys
      ensures forall id :: id in rows ==>
                rows[id] == if id in due then old(rows)[id].(status := Sending) else old(rows)[id]
    {
      claimed := [];
      for i := 0 to |due|
        invariant claimed == due[..i]
        invariant rows.Keys == old(rows).Keys
        invariant forall id :: id in rows ==>
                    rows[id] == if id in due[..i] then old(rows)[id].(status := Sending) else old(rows)[id]
      {
        assert due[i] !in due[..i];
        var mine := TryClaim(due[i]);
        if mine { claimed := claimed + [due[i]]; }
        assert due[..i + 1] == due[..i] + [due[i]];
      }
      assert due[..|due|] == due;
    }

    method MarkSent(id: nat)
      modifies this
      ensures rows == if id in old(rows) then old(rows)[id := old(rows)[id].(status := Sent)] else old(rows)
    {
      if id in rows { rows := rows[id := rows[id].(status := Sent)]; }
    }

    /** None when there is no such message. */
    method MarkFailed(id: nat, code: int, now: int) returns (outcome: Option<Status>)
      modifies this
      ensures id !in old(rows) ==> outcome == None && rows == old(rows)
      ensures id in old(rows) ==>
                rows == old(rows)[id := FailedRow(old(rows)[id], code, now)] && outcome == Some(rows[id].status)
    {
      if id !in rows { return None; }
      var attempts := rows[id].attempts + 1;
      var status := ClassifyFailure(code);
      if status == Deferred && attempts >= MaxAttempts(rows[id]) { status := Failed; }
      rows := rows[id := rows[id].(status := status, attempts := attempts, nextRetry := NextRetryAt(attempts, now))];
      outcome := Some(status);
    }

    method Release(id: nat)
      modifies this
      ensures rows == if id in old(rows) && old(rows)[id].status == Sending
                      then old(rows)[id := old(rows)[id].(status := Pending)] else old(rows)
    {
      if id in rows && rows[id].status == Sending { rows := rows[id := rows[id].(status := Pending)]; }
    }

    method RetryNow(id: nat, now: int)
      modifies this
      ensures rows == if id in old(rows) then old(rows)[id := old(rows)[id].(status := Pending, nextRetry := now)]
                      else old(rows)
    {
      if id in rows { rows := rows[id := rows[id].(status := Pending, nextRetry := now)]; }
    }
  }

  /** Delays grow with the attempts and stop growing at the last step. */
  lemma {:induction false} BackoffGrows(a: nat, b: nat, now: int)
    requires a <= b
    ensures now + 60 <= NextRetryAt(a, now) <= NextRetryAt(b, now) <= now + 28800
  {
    var d := RETRY_DELAYS;
    assert d[0] == 60 && d[1] == 300 && d[2] == 1800 && d[3] == 7200 && d[4] == 28800;
  }

  /** After its `n`-th failed attempt a message waits a minute, five minutes, half an
      hour, two hours, and then eight hours each time. */
  lemma {:induction false} DelayFor(row: Row, code: int, now: int)
    ensures var n, wait := row.attempts + 1, FailedRow(row, code, now).nextRetry - now;
            && (n == 1 ==> wait == 60) && (n == 2 ==> wait == 5 * 60) && (n == 3 ==> wait == 30 * 60)
            && (n == 4 ==> wait == 2 * 3600) && (n >= 5 ==> wait == 8 * 3600)
  {
    var d := RETRY_DELAYS;
    assert d[0] == 60 && d[1] == 300 && d[2] == 1800 && d[3] == 7200 && d[4] == 28800;
  }
}
