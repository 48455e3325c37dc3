/** How often a message can be delivered: over every possible run of the queue, and
    after the updates that do not look at what has been sent. */
module QueueRuns {
  import opened Text
  import opened Queue
  import opened QueueProtocol

  // ----- deliveries

  /** How often transmissions got through to group `k`. */
  function Deliveries(transmissions: seq<nat>, k: nat): nat {
    if transmissions == [] then 0
    else Deliveries(transmissions[..|transmissions| - 1], k)
         + (if transmissions[|transmissions| - 1] > k then 1 else 0)
  }

  /** Every group got the message at most once. */
  ghost predicate Once(h: History) { forall k :: Deliveries(h.transmissions, k) <= 1 }

  lemma {:induction false} DeliveriesAppend(ts: seq<nat>, n: nat, k: nat)
    ensures Deliveries(ts + [n], k) == Deliveries(ts, k) + (if n > k then 1 else 0)
  {
    assert (ts + [n])[..|ts|] == ts;
  }

  lemma {:induction false} AtMostEach(ts: seq<nat>, k: nat)
    ensures Deliveries(ts, k) <= |ts|
  {
    if ts != [] { AtMostEach(ts[..|ts| - 1], k); }
  }

  lemma {:induction false} NoDeliveries(ts: seq<nat>, k: nat)
    requires forall i :: 0 <= i < |ts| ==> ts[i] <= k
    ensures Deliveries(ts, k) == 0
  {
    if ts != [] { NoDeliveries(ts[..|ts| - 1], k); }
  }

  /** With one group only the last transmission can get through. */
  lemma {:induction false} OneGroupOnce(st: State, id: nat)
    requires Inv(st) && id in st.log && st.log[id].groups <= 1
    ensures Once(st.log[id])
  {
    var h := st.log[id];
    var ts := h.transmissions;
    assert Fits(st, id);
    forall i | 0 <= i < |ts| - 1 ensures ts[i] == 0 { assert !Complete(h, i); }
    forall k: nat ensures Deliveries(ts, k) <= 1 {
      if ts != [] { NoDeliveries(ts[..|ts| - 1], k); }
    }
  }

  /** No operator retried it, and no sender gave it up after transmitting it. */
  predicate Unaided(h: History) { h.retries == 0 && h.dropped == 0 }

  /** One attempt at most was ever made. */
  lemma {:induction false} OneAttemptOnce(st: State, id: nat)
    requires Inv(st) && id in st.log && Unaided(st.log[id]) && Limit(st.log[id].maxAttempts) <= 1
    ensures Once(st.log[id])
  {
    assert Fits(st, id);
    forall k: nat ensures Deliveries(st.log[id].transmissions, k) <= 1 { AtMostEach(st.log[id].transmissions, k); }
  }

  // ----- runs put together

  lemma {:induction false} RunConcat(st: State, a: seq<Step>, b: seq<Step>)
    requires Possible(st, a) && Possible(After(st, a), b)
    ensures Possible(st, a + b) && After(st, a + b) == After(After(st, a), b)
    decreases |a|
  {
    hide Enabled, Next;
    if a == [] {
      assert a + b == b;
    } else {
      assert (a + b)[0] == a[0] && (a + b)[1..] == a[1..] + b;
      RunConcat(Next(st, a[0]), a[1..], b);
    }
  }

  lemma {:induction false} RunOne(st: State, step: Step)
    requires Enabled(st, step)
    ensures Possible(st, [step]) && After(st, [step]) == Next(st, step)
  {
    assert [step][1..] == [];
    assert Possible(Next(st, step), []);
    hide Enabled, Next;
  }

  lemma {:induction false} RunSnoc(st: State, run: seq<Step>, step: Step)
    requires Possible(st, run) && Enabled(After(st, run), step)
    ensures Possible(st, run + [step]) && After(st, run + [step]) == Next(After(st, run), step)
  {
    hide Enabled, Next;
    RunOne(After(st, run), step);
    RunConcat(st, run, [step]);
  }

  lemma {:induction false} ReachOn(st: State, run: seq<Step>)
    requires Reachable(st) && Possible(st, run)
    ensures Reachable(After(st, run))
  {
    var start, before :| Reaches(start, before, st);
    RunConcat(start, before, run);
    assert Reaches(start, before + run, After(st, run));
  }

  /** A message keeps its number of groups, and its history is never lost. */
  lemma {:induction false} GroupsKept(st: State, run: seq<Step>, id: nat)
    requires Possible(st, run) && id in st.log
    ensures id in After(st, run).log && After(st, run).log[id].groups == st.log[id].groups
    decreases |run|
  {
    if run != [] {
      var next := Next(st, run[0]);
      assert id in next.log && next.log[id].groups == st.log[id].groups;
      hide Enabled, Next;
      GroupsKept(next, run[1..], id);
    }
  }

  // ----- one more attempt at a free message

  lemma {:induction false} Above(ids: set<nat>) returns (n: nat)
    ensures forall i :: i in ids ==> i < n
    decreases |ids|
  {
    if ids == {} { return 0; }
    var i :| i in ids;
    n := Above(ids - {i});
    n := if n <= i then i + 1 else n;
    assert forall j :: j in ids ==> j == i || j in ids - {i};
  }

  lemma {:induction false} Latest(rows: map<nat, Row>, ids: set<nat>) returns (last: nat)
    requires ids <= rows.Keys && ids != {}
    ensures last in ids && forall i :: i in ids ==> rows[i].nextRetry <= rows[last].nextRetry
    decreases |ids|
  {
    var i :| i in ids;
    if ids == {i} { return i; }
    last := Latest(rows, ids - {i});
    assert forall j :: j in ids ==> j == i || j in ids - {i};
    if rows[last].nextRetry < rows[i].nextRetry { last := i; }
  }

  ghost predicate ByTime(rows: map<nat, Row>, ids: seq<nat>) {
    && (forall i :: 0 <= i < |ids| ==> ids[i] in rows)
    && (forall i, j :: 0 <= i < j < |ids| ==> ids[i] != ids[j] && rows[ids[i]].nextRetry <= rows[ids[j]].nextRetry)
  }

  lemma {:induction false} InOrder(rows: map<nat, Row>, ids: set<nat>) returns (due: seq<nat>)
    requires ids <= rows.Keys
    ensures ByTime(rows, due) && forall id :: id in due <==> id in ids
    decreases |ids|
  {
    if ids == {} { return []; }
    var last := Latest(rows, ids);
    due := InOrder(rows, ids - {last});
    assert forall i :: 0 <= i < |due| ==> due[i] in ids - {last};
    due := due + [last];
  }

  /** A SELECT that returns every due row. */
  lemma {:induction false} SelectAll(rows: map<nat, Row>, now: int) returns (due: seq<nat>)
    ensures IsDue(rows, due, now, |due|)
    ensures forall id :: id in rows && Claimable(rows[id]) && rows[id].nextRetry <= now ==> id in due
  {
    due := InOrder(rows, set id | id in rows && Claimable(rows[id]) && rows[id].nextRetry <= now);
    assert forall i :: 0 <= i < |due| ==> due[i] in due;
  }

  /** `t` is new and holds `id` in state `p`; nobody else's state changed. */
  ghost predicate Joined(st: State, end: State, t: nat, id: nat, p: Progress) {
    && t !in st.senders && Holds(end, t, id) && end.senders[t].held[id] == p
    && forall s :: s in st.senders ==> s in end.senders && end.senders[s] == st.senders[s]
  }

  ghost predicate Claims(st: State, end: State, id: nat)
    requires id in st.rows && id in st.log
  {
    && id in end.rows && end.rows[id] == st.rows[id].(status := Sending)
    && id in end.log && end.log[id] == st.log[id].(claims := st.log[id].claims + 1)
  }

  /** A sender works down its list to a free message and takes it. */
  lemma {:induction false} ClaimDown(st: State, t: nat, id: nat) returns (run: seq<Step>)
    requires id in st.rows && Claimable(st.rows[id]) && id in st.log
    requires t in st.senders && id in st.senders[t].due
    ensures Possible(st, run)
    ensures var end := After(st, run);
            && Claims(st, end, id) && Holds(end, t, id) && end.senders[t].held[id] == Claimed
            && forall s :: s in st.senders && s != t ==> s in end.senders && end.senders[s] == st.senders[s]
    decreases |st.senders[t].due|
  {
    var next := Next(st, TryClaim(t));
    RunOne(st, TryClaim(t));
    run := [TryClaim(t)];
    if st.senders[t].due[0] != id {
      assert id in next.rows && next.rows[id] == st.rows[id] && id in next.log && next.log[id] == st.log[id];
      assert next.senders[t].due == st.senders[t].due[1..];
      hide Next, Possible, After;
      var rest := ClaimDown(next, t, id);
      RunConcat(st, run, rest);
      run := run + rest;
    }
  }

  /** A new sender can always take a free message. */
  lemma {:induction false} NewClaim(st: State, id: nat) returns (run: seq<Step>, t: nat)
    requires id in st.rows && Claimable(st.rows[id]) && id in st.log
    ensures Possible(st, run) && Claims(st, After(st, run), id) && Joined(st, After(st, run), t, id, Claimed)
  {
    t := Above(st.senders.Keys);
    assert t !in st.senders;
    var due := SelectAll(st.rows, st.rows[id].nextRetry);
    var select := Select(t, due, st.rows[id].nextRetry, |due|);
    RunOne(st, Join(t));
    var joined := Next(st, Join(t));
    assert Enabled(joined, select);
    RunSnoc(st, [Join(t)], select);
    var listed := Next(joined, select);
    assert listed.rows == st.rows && listed.log == st.log && listed.senders == st.senders[t := Sender(due, map[])];
    hide Possible, After, Next, Enabled, IsDue;
    var rest := ClaimDown(listed, t, id);
    RunConcat(st, [Join(t)] + [select], rest);
    run := [Join(t)] + [select] + rest;
  }

  ghost predicate Sends(st: State, end: State, id: nat, accepted: nat)
    requires id in st.rows && id in st.log
  {
    && id in end.rows && end.rows[id] == st.rows[id].(status := Sending)
    && id in end.log
    && end.log[id] == st.log[id].(claims := st.log[id].claims + 1, transmissions := st.log[id].transmissions + [accepted])
  }

  /** A new sender can take a free message and transmit it, whatever the remote
      servers then say. */
  lemma {:induction false} NewTransmission(st: State, id: nat, accepted: nat, code: int) returns (run: seq<Step>, t: nat)
    requires id in st.rows && Claimable(st.rows[id]) && id in st.log && accepted <= st.log[id].groups
    ensures Possible(st, run) && Sends(st, After(st, run), id, accepted)
    ensures Joined(st, After(st, run), t, id, Outcome(st.log[id].groups, accepted, code))
  {
    hide Possible, After;
    run, t := NewClaim(st, id);
    var transmit := Transmit(t, id, accepted, code);
    RunSnoc(st, run, transmit);
    run := run + [transmit];
  }

  /** A message whose attempt failed can be made free again, by waiting when it is
      deferred and by the operator when it failed. */
  lemma {:induction false} FreeAgain(st: State, s: nat, id: nat) returns (run: seq<Step>)
    requires Holds(st, s, id) && st.senders[s].held[id].Refused? && id in st.rows && id in st.log
    ensures Possible(st, run)
    ensures var end := After(st, run);
            && id in end.rows && Claimable(end.rows[id]) && id in end.log
            && end.log[id] == (if FailedRow(st.rows[id], st.senders[s].held[id].code, 0).status == Deferred then st.log[id]
                               else st.log[id].(retries := st.log[id].retries + 1))
  {
    var mark := MarkFailed(s, id, 0);
    var marked := Next(st, mark);
    RunOne(st, mark);
    run := [mark];
    assert id in marked.rows && marked.log == st.log;
    assert marked.rows[id] == FailedRow(st.rows[id], st.senders[s].held[id].code, 0);
    hide Possible, After, Next, FailedRow;
    if marked.rows[id].status != Deferred {
      MarkedStatus(st.rows[id], st.senders[s].held[id].code);
      RetryFrees(marked, id);
      RunSnoc(st, run, RetryNow(id, 0));
      run := run + [RetryNow(id, 0)];
    }
  }

  lemma {:induction false} MarkedStatus(row: Row, code: int)
    ensures FailedRow(row, code, 0).status in {Deferred, Failed}
  {
  }

  lemma {:induction false} RetryFrees(st: State, id: nat)
    requires id in st.rows && id in st.log && st.rows[id].status == Failed
    ensures var end := Next(st, RetryNow(id, 0));
            && Enabled(st, RetryNow(id, 0)) && id in end.rows && Claimable(end.rows[id]) && id in end.log
            && end.log[id] == st.log[id].(retries := st.log[id].retries + 1)
  {
  }

  // ----- as often as the limit

  /** A 4xx refusal defers a message while attempts remain and fails it after the last. */
  lemma {:induction false} DeferredWhile(row: Row, now: int)
    ensures var after := FailedRow(row, 451, now);
            after == row.(status := if row.attempts + 1 < MaxAttempts(row) then Deferred else Failed,
                          attempts := row.attempts + 1, nextRetry := after.nextRetry)
  {
  }

  /** A message that is always refused for now has been tried `n` times, by nobody's
      hand, and waits for more or has failed. */
  ghost predicate Tried(st: State, groups: nat, maxAttempts: int, n: nat) {
    && Reachable(st) && 0 in st.rows && 0 in st.log
    && st.log[0].groups == groups && st.log[0].maxAttempts == maxAttempts && Unaided(st.log[0])
    && st.rows[0].maxAttempts == maxAttempts && st.rows[0].attempts == n && |st.log[0].transmissions| == n
    && st.rows[0].status == (if n == 0 then Pending else if n < Limit(maxAttempts) then Deferred else Failed)
  }

  /** With the bound of `AttemptsBounded`: a message that every attempt is refused for now
      is tried exactly as often as its limit says, and then it has failed. */
  lemma {:induction false} LimitReached(groups: nat, maxAttempts: int, n: nat) returns (st: State)
    requires n <= if maxAttempts == 0 then 5 else if maxAttempts < 1 then 1 else maxAttempts
    ensures Tried(st, groups, maxAttempts, n)
  {
    hide Reachable, Possible, After;
    if n == 0 {
      st := QueueOne(groups, maxAttempts);
    } else {
      st := LimitReached(groups, maxAttempts, n - 1);
      var row := st.rows[0];
      assert Claimable(row);
      var run, t := NewTransmission(st, 0, 0, 451);
      ReachOn(st, run);
      st := After(st, run);
      DeferredWhile(st.rows[0], 0);
      assert Enabled(st, MarkFailed(t, 0, 0));
      RunOne(st, MarkFailed(t, 0, 0));
      ReachOn(st, [MarkFailed(t, 0, 0)]);
      hide FailedRow;
      st := Next(st, MarkFailed(t, 0, 0));
    }
  }

  // ----- at most once

  predicate Concerns(h: History, groups: nat, maxAttempts: int, aided: bool) {
    h.groups == groups && h.maxAttempts == maxAttempts && (aided || Unaided(h))
  }

  /** Whether no possible run delivers a message with these groups and this limit to
      one of its groups twice; `aided` runs may retry it by hand and give it up after
      a transmission. */
  ghost predicate NeverRepeats(groups: nat, maxAttempts: int, aided: bool) {
    forall st, id :: Reachable(st) && id in st.log && Concerns(st.log[id], groups, maxAttempts, aided) ==> Once(st.log[id])
  }

  const EMPTY := State(map[], map[], map[])

  lemma {:induction false} QueueOne(groups: nat, maxAttempts: int) returns (st: State)
    ensures Reachable(st) && st == State(map[0 := Row(Pending, 0, maxAttempts, 0)], map[],
                                         map[0 := History(groups, maxAttempts, [], 0, 0, 0, 0)])
  {
    var step := Enqueue(0, groups, maxAttempts, 0);
    st := Next(EMPTY, step);
    RunOne(EMPTY, step);
    assert Start(EMPTY);
    assert Reaches(EMPTY, [step], st);
  }

  /** With several recipient domains a message can get through to the first of them
      twice: it accepts, the second defers, and the next attempt starts over. No
      operator is needed when a second attempt is allowed. */
  lemma {:induction false} ManyGroupsRepeat(groups: nat, maxAttempts: int) returns (st: State)
    requires groups >= 2
    ensures Reachable(st) && 0 in st.log && st.log[0].groups == groups && st.log[0].maxAttempts == maxAttempts
    ensures Deliveries(st.log[0].transmissions, 0) == 2 && st.log[0].dropped == 0
    ensures Limit(maxAttempts) >= 2 ==> st.log[0].retries == 0
  {
    TwoDelivered();
    st := QueueOne(groups, maxAttempts);
    hide Reachable, Possible, After, Deliveries;
    var run, t := NewTransmission(st, 0, 1, 451);
    ReachOn(st, run);
    st := After(st, run);
    assert st.log[0].transmissions == [1] by { assert [] + [1] == [1]; }
    run := FreeAgain(st, t, 0);
    ReachOn(st, run);
    st := After(st, run);
    assert Limit(maxAttempts) >= 2 ==> st.log[0].retries == 0;
    run, t := NewTransmission(st, 0, groups, 250);
    ReachOn(st, run);
    st := After(st, run);
    assert st.log[0].transmissions == [1] + [groups];
    DeliveriesAppend([1], groups, 0);
  }

  lemma {:induction false} TwoDelivered()
    ensures Deliveries([1], 0) == 1
  {
    assert [1][..0] == [];
  }

  /** What is known of a message when it is queued decides whether every group gets it
      at most once: exactly when it has a single group - relayed, or to one domain -
      or, as long as nobody retries it by hand, when it may be tried only once. */
  lemma {:induction false} DeliveredAtMostOnceIff(groups: nat, maxAttempts: int)
    ensures NeverRepeats(groups, maxAttempts, true) <==> groups <= 1
    ensures NeverRepeats(groups, maxAttempts, false) <==> groups <= 1 || Limit(maxAttempts) <= 1
  {
    forall st, id | Reachable(st) && id in st.log && st.log[id].groups == groups && st.log[id].maxAttempts == maxAttempts
      ensures groups <= 1 || (Limit(maxAttempts) <= 1 && Unaided(st.log[id])) ==> Once(st.log[id])
    {
      ReachableInv(st);
      hide Inv, Reachable, Once;
      if groups <= 1 { OneGroupOnce(st, id); } else if Limit(maxAttempts) <= 1 && Unaided(st.log[id]) { OneAttemptOnce(st, id); }
    }
    if groups >= 2 {
      var st := ManyGroupsRepeat(groups, maxAttempts);
      assert !Once(st.log[0]);
      hide Reachable, Once, Limit;
      assert Concerns(st.log[0], groups, maxAttempts, true);
      assert Limit(maxAttempts) >= 2 ==> Concerns(st.log[0], groups, maxAttempts, false);
    }
  }

  /** Nothing is transmitted after a transmission that got through to every group. */
  lemma {:induction false} NothingAfterComplete(st: State, id: nat)
    requires Reachable(st) && id in st.log
    ensures forall i :: Complete(st.log[id], i) ==> i == |st.log[id].transmissions| - 1
  {
    ReachableInv(st);
    assert Fits(st, id);
  }

  // ----- the update that looks at no status

  ghost predicate HeldTwice(st: State, id: nat) { exists s, t :: s != t && Holds(st, s, id) && Holds(st, t, id) }

  /** Some possible run from here ends with two senders holding the message. */
  ghost predicate MaySplit(st: State, id: nat) { exists run :: Possible(st, run) && HeldTwice(After(st, run), id) }

  lemma {:induction false} OwnedNeverSplits(st: State, id: nat)
    requires Owned(st)
    ensures !MaySplit(st, id)
  {
    forall run | Possible(st, run) ensures !HeldTwice(After(st, run), id) {
      RunKeepsOwned(st, run);
      hide Possible, After;
    }
  }

  /** `retry_now` does not look at the status. Applied to any row, it lets two senders
      hold the message if and only if the row is being sent. */
  lemma {:induction false} RetrySplitsIff(st: State, id: nat, now: int)
    requires Reachable(st) && id in st.rows
    ensures MaySplit(Next(st, RetryNow(id, now)), id) <==> st.rows[id].status == Sending
  {
    ReachableInv(st);
    assert Owned(st) && id in st.log;
    var after := Next(st, RetryNow(id, now));
    assert after.senders == st.senders && id in after.rows && Claimable(after.rows[id]) && id in after.log;
    if st.rows[id].status == Sending {
      var s :| Holds(st, s, id);
      hide Possible, After, Next, Inv, Reachable;
      var run, t := NewClaim(after, id);
      assert Holds(After(after, run), s, id) && s != t;
      assert HeldTwice(After(after, run), id);
    } else {
      assert Owned(after) by { hide Inv, Reachable; RetryKeepsOwned(st, id, now); }
      hide Inv, Next, Reachable, MaySplit, Owned;
      OwnedNeverSplits(after, id);
    }
  }

  lemma {:induction false} RetryKeepsOwned(st: State, id: nat, now: int)
    requires Owned(st) && id in st.rows && st.rows[id].status != Sending
    ensures Owned(Next(st, RetryNow(id, now)))
  {
    var after := Next(st, RetryNow(id, now));
    assert forall t, j :: Holds(after, t, j) <==> Holds(st, t, j);
    OwnershipSame(st, after);
    hide Ownership;
  }

  ghost predicate OneComplete(st: State, id: nat) {
    id in st.log && forall i, j :: Complete(st.log[id], i) && Complete(st.log[id], j) ==> i == j
  }

  /** Whatever happens from here, at most one transmission of the message ever gets
      through to all its groups. */
  ghost predicate CompletesOnce(st: State, id: nat) { forall run :: Possible(st, run) ==> OneComplete(After(st, run), id) }

  lemma {:induction false} InvCompletesOnce(st: State, id: nat)
    requires Inv(st) && id in st.log
    ensures CompletesOnce(st, id)
  {
    forall run | Possible(st, run) ensures OneComplete(After(st, run), id) {
      RunKeepsInv(st, run);
      GroupsKept(st, run, id);
      assert Fits(After(st, run), id);
      hide Possible, After, Counts;
    }
  }

  lemma {:induction false} NoGroupsCompleteNever(st: State, id: nat)
    requires id in st.log && st.log[id].groups == 0
    ensures CompletesOnce(st, id)
  {
    forall run | Possible(st, run) ensures OneComplete(After(st, run), id) { GroupsKept(st, run, id); }
  }

  /** Two complete transmissions on record are two too many. */
  lemma {:induction false} TwiceComplete(st: State, run: seq<Step>, id: nat, before: History)
    requires Possible(st, run) && id in After(st, run).log && !NoneComplete(before)
    requires before.groups > 0 && After(st, run).log[id].groups == before.groups
    requires After(st, run).log[id].transmissions == before.transmissions + [before.groups]
    ensures !CompletesOnce(st, id)
  {
    var h := After(st, run).log[id];
    var i :| Complete(before, i);
    assert Complete(h, i) && Complete(h, |before.transmissions|);
    hide Possible, After;
    assert !OneComplete(After(st, run), id);
  }

  /** Free while a complete transmission is on record, a message can be sent again. */
  lemma {:induction false} FreeAfterComplete(st: State, id: nat)
    requires id in st.rows && Claimable(st.rows[id]) && id in st.log && !NoneComplete(st.log[id])
    ensures !CompletesOnce(st, id)
  {
    var h := st.log[id];
    assert h.groups > 0;
    hide Possible, After, CompletesOnce, NoneComplete;
    var run, t := NewTransmission(st, id, h.groups, 250);
    TwiceComplete(st, run, id, h);
  }

  lemma {:induction false} AppendCompletes(h: History)
    requires h.groups > 0
    ensures !NoneComplete(h.(transmissions := h.transmissions + [h.groups]))
  {
    assert Complete(h.(transmissions := h.transmissions + [h.groups]), |h.transmissions|);
  }

  /** Free while another sender still has it to transmit, it can be sent by both. */
  lemma {:induction false} FreeWhileClaimed(st: State, s: nat, id: nat)
    requires id in st.rows && Claimable(st.rows[id]) && id in st.log && st.log[id].groups > 0
    requires Holds(st, s, id) && st.senders[s].held[id] == Claimed
    ensures !CompletesOnce(st, id)
  {
    hide Possible, After, CompletesOnce, NoneComplete;
    var groups := st.log[id].groups;
    var run, t := NewTransmission(st, id, groups, 250);
    var mid := After(st, run);
    AppendCompletes(st.log[id]);
    var again := Transmit(s, id, groups, 250);
    assert Holds(mid, s, id) && mid.senders[s].held[id] == Claimed;
    RunSnoc(st, run, again);
    SameComplete(st.log[id].(transmissions := st.log[id].transmissions + [groups]), mid.log[id]);
    TwiceComplete(st, run + [again], id, mid.log[id]);
  }

  lemma {:induction false} SameComplete(h: History, g: History)
    requires h.transmissions == g.transmissions && h.groups == g.groups && !NoneComplete(h)
    ensures !NoneComplete(g)
  {
    SameTransmissions(h, g);
  }

  /** Free while another sender has yet to record its refusal, it can be sent, marked
      failed by that sender, and sent again. */
  lemma {:induction false} FreeWhileRefused(st: State, s: nat, id: nat)
    requires id in st.rows && Claimable(st.rows[id]) && id in st.log && st.log[id].groups > 0
    requires Holds(st, s, id) && st.senders[s].held[id].Refused?
    ensures !CompletesOnce(st, id)
  {
    hide Possible, After, CompletesOnce, NoneComplete;
    var groups := st.log[id].groups;
    var run, t := NewTransmission(st, id, groups, 250);
    var mid := After(st, run);
    AppendCompletes(st.log[id]);
    assert Holds(mid, s, id) && mid.senders[s].held[id].Refused?;
    var free := FreeAgain(mid, s, id);
    var end := After(mid, free);
    SameComplete(st.log[id].(transmissions := st.log[id].transmissions + [groups]), end.log[id]);
    FreeAfterComplete(end, id);
    RunConcat(st, run, free);
    if CompletesOnce(st, id) { CompletesOnceLater(st, run + free, id); }
  }

  lemma {:induction false} CompletesOnceLater(st: State, run: seq<Step>, id: nat)
    requires Possible(st, run) && CompletesOnce(st, id)
    ensures CompletesOnce(After(st, run), id)
  {
    var mid := After(st, run);
    forall later | Possible(mid, later) ensures OneComplete(After(mid, later), id) {
      hide OneComplete, Possible, After;
      RunConcat(st, run, later);
      assert OneComplete(After(st, run + later), id);
    }
  }

  /** `retry_now` keeps a message from being sent again after a complete transmission,
      over every later run, if and only if its row is neither being sent nor sent. (A
      message with no deliverable recipient is never transmitted to anyone.) */
  lemma {:induction false} RetryCompletesOnceIff(st: State, id: nat, now: int)
    requires Reachable(st) && id in st.rows
    ensures id in st.log
    ensures CompletesOnce(Next(st, RetryNow(id, now)), id) <==>
            st.rows[id].status !in {Sending, Sent} || st.log[id].groups == 0
  {
    ReachableInv(st);
    var after := Next(st, RetryNow(id, now));
    assert Fits(st, id);
    assert after.senders == st.senders && id in after.rows && Claimable(after.rows[id]) && id in after.log;
    SameTransmissions(st.log[id], after.log[id]);
    hide Reachable, CompletesOnce, NoneComplete, Complete;
    if st.log[id].groups == 0 {
      NoGroupsCompleteNever(after, id);
    } else if st.rows[id].status !in {Sending, Sent} {
      StepKeepsInv(st, RetryNow(id, now));
      InvCompletesOnce(after, id);
    } else if st.rows[id].status == Sent {
      FreeAfterComplete(after, id);
    } else {
      var s :| Holds(st, s, id);
      HeldMessage(st, s, id);
      assert Holds(after, s, id);
      match st.senders[s].held[id]
      case Claimed => FreeWhileClaimed(after, s, id);
      case Accepted => FreeAfterComplete(after, id);
      case Refused(_) => FreeWhileRefused(after, s, id);
    }
  }

  /** Releasing a held message keeps the owners exact, but it keeps the message from
      being sent again if and only if no transmission of it was accepted. */
  lemma {:induction false} ReleaseCompletesOnceIff(st: State, s: nat, id: nat)
    requires Reachable(st) && Holds(st, s, id)
    ensures id in st.log && Owned(Next(st, Release(s, id)))
    ensures CompletesOnce(Next(st, Release(s, id)), id) <==> st.senders[s].held[id] != Accepted
  {
    ReachableInv(st);
    HeldMessage(st, s, id);
    var after := Next(st, Release(s, id));
    assert id in after.rows && Claimable(after.rows[id]) && id in after.log;
    SameTransmissions(st.log[id], after.log[id]);
    assert Owned(after) by { ReleaseKeepsOwned(st, s, id); }
    hide Reachable, CompletesOnce, NoneComplete, Complete, Owned;
    if st.senders[s].held[id] != Accepted {
      StepKeepsInv(st, Release(s, id));
      InvCompletesOnce(after, id);
    } else {
      FreeAfterComplete(after, id);
    }
  }

  lemma {:induction false} ReleaseKeepsOwned(st: State, s: nat, id: nat)
    requires Owned(st) && Holds(st, s, id) && id in st.log
    ensures Owned(Next(st, Release(s, id)))
  {
    var after := Next(st, Release(s, id));
    assert forall t, j :: Holds(after, t, j) <==> Holds(st, t, j) && !(t == s && j == id);
    OwnershipShrinks(st, after, s, id);
    hide Ownership;
  }

  /** Rows being sent and rows already sent are reached from an empty queue, for every
      message with a recipient. */
  lemma {:induction false} InFlightAndSent(groups: nat, maxAttempts: int) returns (inFlight: State, sent: State)
    requires groups > 0
    ensures Reachable(inFlight) && 0 in inFlight.rows && inFlight.rows[0].status == Sending
    ensures Reachable(sent) && 0 in sent.rows && sent.rows[0].status == Sent
    ensures 0 in inFlight.log && 0 in sent.log && inFlight.log[0] == sent.log[0]
    ensures sent.log[0].groups == groups && sent.log[0].maxAttempts == maxAttempts
  {
    var st := QueueOne(groups, maxAttempts);
    hide Reachable, Possible, After;
    var run, t := NewTransmission(st, 0, groups, 250);
    ReachOn(st, run);
    inFlight := After(st, run);
    RunOne(inFlight, MarkSent(t, 0));
    ReachOn(inFlight, [MarkSent(t, 0)]);
    sent := Next(inFlight, MarkSent(t, 0));
  }
}
