/** Many senders sharing one queue, as interleaved steps: claim's SELECT, each of
    its conditional UPDATEs, the transmission, and the row update that follows it
    are separate steps of one sender, and any steps of others may come between. */
module QueueProtocol {
  import opened Text
  import opened Queue

  /** What a sender knows of a message it holds. */
  datatype Progress = Claimed | Accepted | Refused(code: int)

  /** A sender's selected rows still to be tried, and the messages it holds. */
  datatype Sender = Sender(due: seq<nat>, held: map<nat, Progress>)

  /** What has happened to one message: how many recipient groups it has, its stored
      attempt limit, the number of groups each transmission got through, and counts of
      claims, of releases before and after a transmission, and of operator retries. */
  datatype History =
    History(groups: nat, maxAttempts: int, transmissions: seq<nat>, claims: nat, unused: nat, dropped: nat, retries: nat)

  datatype State = State(rows: map<nat, Row>, senders: map<nat, Sender>, log: map<nat, History>)

  datatype Step =
    | Join(s: nat)
    | Enqueue(id: nat, groups: nat, maxAttempts: int, now: int)
    | Select(s: nat, due: seq<nat>, now: int, limit: nat)
    | TryClaim(s: nat)
    | Transmit(s: nat, id: nat, accepted: nat, code: int)
    | MarkSent(s: nat, id: nat)
    | MarkFailed(s: nat, id: nat, now: int)
    | Release(s: nat, id: nat)
    | RetryNow(id: nat, now: int)
    | Purge(id: nat)

  predicate Holds(st: State, s: nat, id: nat) { s in st.senders && id in st.senders[s].held }

  /** What a transmission that got through to `accepted` groups leaves its sender
      knowing; a message with no deliverable recipient is refused. */
  function Outcome(groups: nat, accepted: nat, code: int): Progress {
    if groups > 0 && accepted == groups then Accepted else Refused(code)
  }

  /** When a step can happen. Senders start at any time; rows are marked by their
      holder, released unless a transmission was accepted, retried by the operator
      unless being sent or sent, and purged once finished; message ids are never
      reused. */
  ghost predicate Enabled(st: State, step: Step) {
    match step
    case Join(s) => s !in st.senders
    case Enqueue(id, _, _, _) => id !in st.log
    case Select(s, due, now, limit) => s in st.senders && st.senders[s].due == [] && IsDue(st.rows, due, now, limit)
    case TryClaim(s) => s in st.senders && st.senders[s].due != []
    case Transmit(s, id, accepted, _) =>
      Holds(st, s, id) && st.senders[s].held[id] == Claimed && id in st.log && accepted <= st.log[id].groups
    case MarkSent(s, id) => Holds(st, s, id) && st.senders[s].held[id] == Accepted
    case MarkFailed(s, id, _) => Holds(st, s, id) && st.senders[s].held[id].Refused?
    case Release(s, id) => Holds(st, s, id) && st.senders[s].held[id] != Accepted
    case RetryNow(id, _) => id in st.rows && st.rows[id].status !in {Sending, Sent}
    case Purge(id) => id in st.rows && st.rows[id].status in {Sent, Failed}
  }

  function SetHeld(st: State, s: nat, held: map<nat, Progress>): State
    requires s in st.senders
  {
    st.(senders := st.senders[s := st.senders[s].(held := held)])
  }

  function Next(st: State, step: Step): State {
    match step
    case Join(s) => if s in st.senders then st else st.(senders := st.senders[s := Sender([], map[])])
    case Enqueue(id, groups, maxAttempts, now) =>
      st.(rows := st.rows[id := NewRow(maxAttempts, now)],
          log := st.log[id := History(groups, maxAttempts, [], 0, 0, 0, 0)])
    case Select(s, due, _, _) =>
      if s !in st.senders then st else st.(senders := st.senders[s := st.senders[s].(due := due)])
    case TryClaim(s) =>
      if s !in st.senders || st.senders[s].due == [] then st
      else
        var me := st.senders[s];
        var id, rest := me.due[0], me.due[1..];
        if id in st.rows && Claimable(st.rows[id]) then
          State(st.rows[id := st.rows[id].(status := Sending)],
                st.senders[s := Sender(rest, me.held[id := Claimed])],
                if id in st.log then st.log[id := st.log[id].(claims := st.log[id].claims + 1)] else st.log)
        else st.(senders := st.senders[s := me.(due := rest)])
    case Transmit(s, id, accepted, code) =>
      if !Holds(st, s, id) || id !in st.log then st
      else
        SetHeld(st, s, st.senders[s].held[id := Outcome(st.log[id].groups, accepted, code)])
          .(log := st.log[id := st.log[id].(transmissions := st.log[id].transmissions + [accepted])])
    case MarkSent(s, id) =>
      if !Holds(st, s, id) || id !in st.rows then st
      else SetHeld(st, s, st.senders[s].held - {id}).(rows := st.rows[id := st.rows[id].(status := Sent)])
    case MarkFailed(s, id, now) =>
      if !Holds(st, s, id) || id !in st.rows || !st.senders[s].held[id].Refused? then st
      else SetHeld(st, s, st.senders[s].held - {id})
             .(rows := st.rows[id := FailedRow(st.rows[id], st.senders[s].held[id].code, now)])
    case Release(s, id) =>
      if !Holds(st, s, id) || id !in st.rows || id !in st.log then st
      else SetHeld(st, s, st.senders[s].held - {id})
             .(rows := st.rows[id := st.rows[id].(status := Pending)],
               log := st.log[id := if st.senders[s].held[id] == Claimed then st.log[id].(unused := st.log[id].unused + 1)
                                   else st.log[id].(dropped := st.log[id].dropped + 1)])
    case RetryNow(id, now) =>
      if id !in st.rows || id !in st.log then st
      else st.(rows := st.rows[id := st.rows[id].(status := Pending, nextRetry := now)],
               log := st.log[id := st.log[id].(retries := st.log[id].retries + 1)])
    case Purge(id) => st.(rows := st.rows - {id})
  }

  ghost predicate Start(st: State) {
    st.rows == map[] && st.log == map[] && forall s :: s in st.senders ==> st.senders[s] == Sender([], map[])
  }

  // ----- who holds what

  /** The SENDING rows are exactly those some sender holds, and no message is held
      twice. */
  ghost predicate Ownership(st: State) {
    && (forall s, id :: Holds(st, s, id) ==> id in st.rows && st.rows[id].status == Sending)
    && (forall s, t, id :: Holds(st, s, id) && Holds(st, t, id) ==> s == t)
    && (forall id :: id in st.rows && st.rows[id].status == Sending ==> exists s :: Holds(st, s, id))
  }

  ghost predicate Owned(st: State) { Ownership(st) && st.rows.Keys <= st.log.Keys }

  /** A sender takes a free message. */
  lemma {:induction false} OwnershipExtends(st: State, after: State, s: nat, id: nat)
    requires Ownership(st) && id in st.rows && st.rows[id].status != Sending
    requires after.rows.Keys == st.rows.Keys && after.rows[id].status == Sending
    requires forall j :: j in st.rows && j != id ==> after.rows[j] == st.rows[j]
    requires forall t, j :: Holds(after, t, j) <==> Holds(st, t, j) || (t == s && j == id)
    ensures Ownership(after)
  {
    forall j | j in after.rows && after.rows[j].status == Sending ensures exists t :: Holds(after, t, j) {
      if j == id {
        assert Holds(after, s, j);
      } else {
        var t :| Holds(st, t, j);
        assert Holds(after, t, j);
      }
    }
  }

  /** A holder lets go of a message whose row stops being SENDING. */
  lemma {:induction false} OwnershipShrinks(st: State, after: State, s: nat, id: nat)
    requires Ownership(st) && Holds(st, s, id)
    requires after.rows.Keys == st.rows.Keys && after.rows[id].status != Sending
    requires forall j :: j in st.rows && j != id ==> after.rows[j] == st.rows[j]
    requires forall t, j :: Holds(after, t, j) <==> Holds(st, t, j) && !(t == s && j == id)
    ensures Ownership(after)
  {
    forall j | j in after.rows && after.rows[j].status == Sending ensures exists t :: Holds(after, t, j) {
      var t :| Holds(st, t, j);
      assert Holds(after, t, j);
    }
  }

  /** Rows that are not SENDING may change or go while holders stay as they are. */
  lemma {:induction false} OwnershipSame(st: State, after: State)
    requires Ownership(st)
    requires forall t, j :: Holds(after, t, j) <==> Holds(st, t, j)
    requires forall j :: j in st.rows && st.rows[j].status == Sending ==> j in after.rows && after.rows[j] == st.rows[j]
    requires forall j :: j in after.rows && after.rows[j].status == Sending ==> j in st.rows && st.rows[j].status == Sending
    ensures Ownership(after)
  {
    forall j | j in after.rows && after.rows[j].status == Sending ensures exists t :: Holds(after, t, j) {
      var t :| Holds(st, t, j);
      assert Holds(after, t, j);
    }
  }

  /** What a step does to the holders. */
  lemma {:induction false} HoldersAfter(st: State, step: Step)
    requires Owned(st) && Enabled(st, step)
    ensures var after := Next(st, step);
            forall t, j :: Holds(after, t, j) <==>
              match step
              case TryClaim(s) => Holds(st, t, j) || (t == s && j == st.senders[s].due[0] && j in st.rows && Claimable(st.rows[j]))
              case MarkSent(s, id) => Holds(st, t, j) && !(t == s && j == id)
              case MarkFailed(s, id, _) => Holds(st, t, j) && !(t == s && j == id)
              case Release(s, id) => Holds(st, t, j) && !(t == s && j == id)
              case _ => Holds(st, t, j)
  {
    hide FailedRow, IsDue;
  }

  /** Senders' steps and the guarded operator steps keep the owners exact, whatever
      was sent before. */
  lemma {:induction false} StepKeepsOwned(st: State, step: Step)
    requires Owned(st) && Enabled(st, step)
    ensures Owned(Next(st, step))
  {
    var after := Next(st, step);
    HoldersAfter(st, step);
    match step
    case TryClaim(s) =>
      var id := st.senders[s].due[0];
      if id in st.rows && Claimable(st.rows[id]) {
        assert Ownership(after) by { OwnershipExtends(st, after, s, id); }
      } else {
        assert Ownership(after) by { OwnershipSame(st, after); }
      }
    case MarkSent(s, id) => assert Ownership(after) by { OwnershipShrinks(st, after, s, id); }
    case MarkFailed(s, id, _) =>
      assert after.rows[id].status != Sending;
      assert Ownership(after) by { OwnershipShrinks(st, after, s, id); }
    case Release(s, id) => assert Ownership(after) by { OwnershipShrinks(st, after, s, id); }
    case _ => assert Ownership(after) by { OwnershipSame(st, after); }
  }

  // ----- what has happened to a message

  function AtLeastOne(n: int): int { if n < 1 then 1 else n }

  ghost predicate IsAccepted(st: State, id: nat) {
    exists s :: Holds(st, s, id) && st.senders[s].held[id] == Accepted
  }

  ghost predicate IsTransmitted(st: State, id: nat) {
    exists s :: Holds(st, s, id) && st.senders[s].held[id] != Claimed
  }

  /** A transmission that got through to every group. */
  ghost predicate Complete(h: History, i: nat) {
    i < |h.transmissions| && h.groups > 0 && h.transmissions[i] == h.groups
  }

  ghost predicate NoneComplete(h: History) { forall i :: !Complete(h, i) }

  /** Attempts, claims, transmissions and retries add up. */
  ghost predicate Counts(row: Row, h: History, transmitted: bool) {
    && row.maxAttempts == h.maxAttempts
    && h.claims == row.attempts + h.unused + h.dropped + (if row.status in {Sending, Sent} then 1 else 0)
    && |h.transmissions| == row.attempts + h.dropped + (if row.status == Sent || transmitted then 1 else 0)
    && row.attempts <= AtLeastOne(MaxAttempts(row)) + h.retries - (if row.status == Failed then 0 else 1)
    && (row.status == Deferred ==> row.attempts < MaxAttempts(row))
  }

  /** Only the last transmission can be complete, and one is exactly when the row is
      sent or about to be. */
  ghost predicate Through(st: State, id: nat)
    requires id in st.log
  {
    var h := st.log[id];
    && (forall i | Complete(h, i) :: i == |h.transmissions| - 1)
    && (id in st.rows ==> (NoneComplete(h) <==> st.rows[id].status != Sent && !IsAccepted(st, id)))
    && (forall i :: 0 <= i < |h.transmissions| ==> h.transmissions[i] <= h.groups)
    && |h.transmissions| <= AtLeastOne(Limit(h.maxAttempts)) + h.retries + h.dropped
  }

  /** The history of a message fits its row. */
  ghost predicate Fits(st: State, id: nat) {
    && id in st.log
    && (id in st.rows ==> Counts(st.rows[id], st.log[id], IsTransmitted(st, id)))
    && Through(st, id)
  }

  ghost predicate Inv(st: State) {
    Owned(st) && forall id :: id in st.log ==> Fits(st, id)
  }

  lemma {:induction false} StartInv(st: State)
    requires Start(st)
    ensures Inv(st)
  {
  }

  // ----- each step keeps the invariant

  ghost predicate HeldAlike(st: State, after: State, id: nat) {
    && (forall s :: Holds(st, s, id) <==> Holds(after, s, id))
    && (forall s :: Holds(st, s, id) && Holds(after, s, id) ==> after.senders[s].held[id] == st.senders[s].held[id])
  }

  /** A step that leaves a message's row, history and holders alone keeps what is
      known of it. */
  lemma {:induction false} FitsKept(st: State, after: State, id: nat)
    requires Fits(st, id) && id in after.log && after.log[id] == st.log[id]
    requires id in after.rows ==> id in st.rows && after.rows[id] == st.rows[id]
    requires HeldAlike(st, after, id)
    ensures Fits(after, id)
  {
    SameHolders(st, after, id);
  }

  lemma {:induction false} SameHolders(st: State, after: State, id: nat)
    requires HeldAlike(st, after, id)
    ensures IsAccepted(st, id) <==> IsAccepted(after, id)
    ensures IsTransmitted(st, id) <==> IsTransmitted(after, id)
  {
    if IsAccepted(st, id) {
      var s :| Holds(st, s, id) && st.senders[s].held[id] == Accepted;
      assert Holds(after, s, id);
    }
    if IsTransmitted(st, id) {
      var s :| Holds(st, s, id) && st.senders[s].held[id] != Claimed;
      assert Holds(after, s, id);
    }
  }

  /** The message a step is about. */
  function Touched(st: State, step: Step): (id: Option<nat>) {
    match step
    case Join(_) => None
    case Enqueue(id, _, _, _) => Some(id)
    case Select(_, _, _, _) => None
    case TryClaim(s) => if s in st.senders && st.senders[s].due != [] then Some(st.senders[s].due[0]) else None
    case Transmit(_, id, _, _) => Some(id)
    case MarkSent(_, id) => Some(id)
    case MarkFailed(_, id, _) => Some(id)
    case Release(_, id) => Some(id)
    case RetryNow(id, _) => Some(id)
    case Purge(id) => Some(id)
  }

  lemma {:induction false} UntouchedAlike(st: State, step: Step, id: nat)
    requires Owned(st) && Enabled(st, step) && Some(id) != Touched(st, step)
    ensures var after := Next(st, step);
            && HeldAlike(st, after, id)
            && (id in after.log ==> id in st.log && after.log[id] == st.log[id])
            && (id in after.rows ==> id in st.rows && after.rows[id] == st.rows[id])
  {
    hide Owned, IsDue, FailedRow;
  }

  /** A step leaves every other message alone. */
  lemma {:induction false} OthersFit(st: State, step: Step)
    requires Inv(st) && Enabled(st, step)
    ensures forall id :: id in Next(st, step).log && Some(id) != Touched(st, step) ==> Fits(Next(st, step), id)
  {
    var after := Next(st, step);
    hide Fits, Enabled, Next, Touched, Ownership, HeldAlike;
    forall id | id in after.log && Some(id) != Touched(st, step) ensures Fits(after, id) {
      UntouchedAlike(st, step, id);
      FitsKept(st, after, id);
    }
  }

  /** A message whose row is not SENDING is held by nobody, and one that is not sent
      either has no complete transmission. */
  lemma {:induction false} FreeMessage(st: State, id: nat)
    requires Inv(st) && id in st.rows && st.rows[id].status != Sending
    ensures id in st.log && (forall s :: !Holds(st, s, id)) && !IsAccepted(st, id) && !IsTransmitted(st, id)
    ensures st.rows[id].status != Sent ==> NoneComplete(st.log[id])
  {
    assert Fits(st, id);
    hide NoneComplete, Counts;
  }

  /** What a holder knows is what has happened. */
  lemma {:induction false} HeldMessage(st: State, s: nat, id: nat)
    requires Inv(st) && Holds(st, s, id)
    ensures id in st.rows && st.rows[id].status == Sending && id in st.log
    ensures IsAccepted(st, id) <==> st.senders[s].held[id] == Accepted
    ensures IsTransmitted(st, id) <==> st.senders[s].held[id] != Claimed
    ensures NoneComplete(st.log[id]) <==> st.senders[s].held[id] != Accepted
  {
    assert Fits(st, id);
    hide NoneComplete, Counts;
  }

  lemma {:induction false} SameTransmissions(h: History, g: History)
    requires h.transmissions == g.transmissions && h.groups == g.groups
    ensures forall i :: Complete(h, i) <==> Complete(g, i)
    ensures NoneComplete(h) <==> NoneComplete(g)
  {
    assert forall i :: Complete(h, i) <==> Complete(g, i);
  }

  /** Nothing was transmitted, and the row and its holders fit. */
  lemma {:induction false} FitsStill(st: State, after: State, id: nat)
    requires Fits(st, id) && id in after.log && id in st.rows && id in after.rows
    requires st.log[id].transmissions == after.log[id].transmissions && st.log[id].groups == after.log[id].groups
    requires st.log[id].maxAttempts == after.log[id].maxAttempts
    requires st.log[id].retries + st.log[id].dropped <= after.log[id].retries + after.log[id].dropped
    requires (st.rows[id].status == Sent || IsAccepted(st, id)) <==> (after.rows[id].status == Sent || IsAccepted(after, id))
    requires Counts(after.rows[id], after.log[id], IsTransmitted(after, id))
    ensures Fits(after, id)
  {
    SameTransmissions(st.log[id], after.log[id]);
    hide Counts, IsAccepted, IsTransmitted, NoneComplete;
  }

  lemma {:induction false} EnqueueFits(st: State, step: Step)
    requires Inv(st) && Enabled(st, step) && step.Enqueue?
    ensures Fits(Next(st, step), step.id)
  {
    HoldersAfter(st, step);
    hide Ownership;
    assert !IsAccepted(Next(st, step), step.id) && !IsTransmitted(Next(st, step), step.id);
  }

  lemma {:induction false} TryClaimFits(st: State, step: Step)
    requires Inv(st) && Enabled(st, step) && step.TryClaim? && st.senders[step.s].due[0] in st.log
    ensures Fits(Next(st, step), st.senders[step.s].due[0])
  {
    var s, after := step.s, Next(st, step);
    var id := st.senders[s].due[0];
    HoldersAfter(st, step);
    if id in st.rows && Claimable(st.rows[id]) {
      FreeMessage(st, id);
      assert Fits(st, id);
      assert forall t :: Holds(after, t, id) ==> t == s && after.senders[t].held[id] == Claimed;
      assert !IsAccepted(after, id) && !IsTransmitted(after, id);
      assert Counts(after.rows[id], after.log[id], false);
      hide Fits, Counts, IsAccepted, IsTransmitted, Ownership;
      FitsStill(st, after, id);
    } else {
      assert HeldAlike(st, after, id);
      hide Ownership;
      FitsKept(st, after, id);
    }
  }

  lemma {:induction false} TransmitFits(st: State, step: Step)
    requires Inv(st) && Enabled(st, step) && step.Transmit?
    ensures Fits(Next(st, step), step.id)
  {
    var s, id, after := step.s, step.id, Next(st, step);
    HeldMessage(st, s, id);
    assert Fits(st, id);
    var before, now := st.log[id], after.log[id];
    assert now.transmissions == before.transmissions + [step.accepted];
    forall i: nat | Complete(now, i) ensures i == |now.transmissions| - 1 && step.accepted == now.groups {
      assert i < |before.transmissions| ==> !Complete(before, i);
    }
    assert Holds(after, s, id) && IsTransmitted(after, id);
    assert Outcome(now.groups, step.accepted, step.code) == Accepted ==> Complete(now, |now.transmissions| - 1);
    assert IsAccepted(after, id) <==> Outcome(now.groups, step.accepted, step.code) == Accepted;
    assert Counts(after.rows[id], now, true);
    hide IsAccepted, IsTransmitted, Ownership;
  }

  lemma {:induction false} MarkSentFits(st: State, step: Step)
    requires Inv(st) && Enabled(st, step) && step.MarkSent?
    ensures Fits(Next(st, step), step.id)
  {
    var s, id, after := step.s, step.id, Next(st, step);
    HeldMessage(st, s, id);
    assert Fits(st, id);
    HoldersAfter(st, step);
    assert !IsAccepted(after, id) && !IsTransmitted(after, id);
    assert Counts(after.rows[id], after.log[id], false);
    hide Fits, Counts, IsAccepted, IsTransmitted, Ownership;
    FitsStill(st, after, id);
  }

  lemma {:induction false} MarkFailedFits(st: State, step: Step)
    requires Inv(st) && Enabled(st, step) && step.MarkFailed?
    ensures Fits(Next(st, step), step.id)
  {
    var s, id, after := step.s, step.id, Next(st, step);
    HeldMessage(st, s, id);
    assert Fits(st, id);
    HoldersAfter(st, step);
    assert !IsAccepted(after, id) && !IsTransmitted(after, id);
    assert Counts(after.rows[id], after.log[id], false);
    assert after.rows[id].status in {Deferred, Failed};
    hide Fits, Counts, IsAccepted, IsTransmitted, Ownership, FailedRow;
    FitsStill(st, after, id);
  }

  lemma {:induction false} ReleaseFits(st: State, step: Step)
    requires Inv(st) && Enabled(st, step) && step.Release?
    ensures Fits(Next(st, step), step.id)
  {
    var s, id, after := step.s, step.id, Next(st, step);
    HeldMessage(st, s, id);
    assert Fits(st, id);
    HoldersAfter(st, step);
    assert !IsAccepted(after, id) && !IsTransmitted(after, id);
    assert Counts(after.rows[id], after.log[id], false);
    hide Fits, Counts, IsAccepted, IsTransmitted, Ownership;
    FitsStill(st, after, id);
  }

  lemma {:induction false} RetryNowFits(st: State, step: Step)
    requires Inv(st) && Enabled(st, step) && step.RetryNow?
    ensures Fits(Next(st, step), step.id)
  {
    var id, after := step.id, Next(st, step);
    FreeMessage(st, id);
    assert Fits(st, id);
    HoldersAfter(st, step);
    assert !IsAccepted(after, id) && !IsTransmitted(after, id);
    assert Counts(after.rows[id], after.log[id], false);
    hide Fits, Counts, IsAccepted, IsTransmitted, Ownership;
    FitsStill(st, after, id);
  }

  lemma {:induction false} PurgeFits(st: State, step: Step)
    requires Inv(st) && Enabled(st, step) && step.Purge? && step.id in st.log
    ensures Fits(Next(st, step), step.id)
  {
    assert HeldAlike(st, Next(st, step), step.id);
    FitsKept(st, Next(st, step), step.id);
  }

  lemma {:induction false} TouchedFits(st: State, step: Step, id: nat)
    requires Inv(st) && Enabled(st, step) && Touched(st, step) == Some(id) && id in Next(st, step).log
    ensures Fits(Next(st, step), id)
  {
    assert step.TryClaim? || step.Purge? ==> id in st.log;
    assert step.TryClaim? ==> id == st.senders[step.s].due[0];
    assert step.TryClaim? || id == step.id;
    hide Inv, Next, Enabled, Fits;
    match step
    case Join(_) =>
    case Enqueue(_, _, _, _) => EnqueueFits(st, step);
    case Select(_, _, _, _) =>
    case TryClaim(_) => TryClaimFits(st, step);
    case Transmit(_, _, _, _) => TransmitFits(st, step);
    case MarkSent(_, _) => MarkSentFits(st, step);
    case MarkFailed(_, _, _) => MarkFailedFits(st, step);
    case Release(_, _) => ReleaseFits(st, step);
    case RetryNow(_, _) => RetryNowFits(st, step);
    case Purge(_) => PurgeFits(st, step);
  }

  lemma {:induction false} StepKeepsInv(st: State, step: Step)
    requires Inv(st) && Enabled(st, step)
    ensures Inv(Next(st, step))
  {
    var after := Next(st, step);
    StepKeepsOwned(st, step);
    OthersFit(st, step);
    hide Owned, Enabled, Fits, Touched, Next;
    forall id | id in after.log ensures Fits(after, id) {
      if Touched(st, step) == Some(id) { TouchedFits(st, step, id); }
    }
  }

  // ----- whole runs

  ghost predicate Possible(st: State, run: seq<Step>)
    decreases |run|
  {
    run == [] || (Enabled(st, run[0]) && Possible(Next(st, run[0]), run[1..]))
  }

  function After(st: State, run: seq<Step>): State
    decreases |run|
  {
    if run == [] then st else After(Next(st, run[0]), run[1..])
  }

  lemma {:induction false} RunKeepsInv(st: State, run: seq<Step>)
    requires Inv(st) && Possible(st, run)
    ensures Inv(After(st, run))
    decreases |run|
  {
    hide Inv, Next, Enabled;
    if run != [] {
      StepKeepsInv(st, run[0]);
      RunKeepsInv(Next(st, run[0]), run[1..]);
    }
  }

  lemma {:induction false} RunKeepsOwned(st: State, run: seq<Step>)
    requires Owned(st) && Possible(st, run)
    ensures Owned(After(st, run))
    decreases |run|
  {
    hide Owned, Next, Enabled;
    if run != [] {
      StepKeepsOwned(st, run[0]);
      RunKeepsOwned(Next(st, run[0]), run[1..]);
    }
  }

  ghost predicate Reaches(st: State, run: seq<Step>, end: State) { Start(st) && Possible(st, run) && After(st, run) == end }

  /** What some possible run from an empty queue ends in. */
  ghost predicate Reachable(end: State) { exists st, run :: Reaches(st, run, end) }

  lemma {:induction false} ReachableInv(end: State)
    requires Reachable(end)
    ensures Inv(end)
  {
    var st, run :| Reaches(st, run, end);
    StartInv(st);
    RunKeepsInv(st, run);
  }

  /** However the senders' steps interleave, no message is ever held by two, and the
      SENDING rows are exactly those held. */
  lemma {:induction false} NeverHeldTwice(st: State, run: seq<Step>)
    requires Start(st) && Possible(st, run)
    ensures var end := After(st, run);
            && (forall s, t, id :: Holds(end, s, id) && Holds(end, t, id) ==> s == t)
            && (forall id :: (id in end.rows && end.rows[id].status == Sending) <==> exists s :: Holds(end, s, id))
  {
    StartInv(st);
    RunKeepsInv(st, run);
    hide Possible, After, Fits;
  }

  /** Attempts, claims and transmissions are bounded by the limit, operator retries
      and releases, and a deferred message has attempts left. */
  lemma {:induction false} AttemptsBounded(st: State, run: seq<Step>, id: nat)
    requires Start(st) && Possible(st, run) && id in After(st, run).log
    ensures var end := After(st, run);
            var h := end.log[id];
            var limit := AtLeastOne(Limit(h.maxAttempts));
            && |h.transmissions| <= limit + h.retries + h.dropped
            && (id in end.rows ==>
                  var row := end.rows[id];
                  && row.maxAttempts == h.maxAttempts && row.attempts <= limit + h.retries
                  && h.claims <= limit + h.retries + h.dropped + h.unused
                  && (row.status == Deferred ==> row.attempts < MaxAttempts(row))
                  && h.claims == row.attempts + h.unused + h.dropped + (if row.status in {Sending, Sent} then 1 else 0))
  {
    StartInv(st);
    RunKeepsInv(st, run);
    assert Fits(After(st, run), id);
    hide Possible, After, Through;
    assert Through(After(st, run), id);
  }

  /** A message that has failed for good, or been sent, is left alone unless an
      operator retries the failed one. */
  lemma {:induction false} FinishedStays(st: State, run: seq<Step>, id: nat)
    requires Inv(st) && Possible(st, run) && id in st.log
    requires id in st.rows ==> st.rows[id].status in {Failed, Sent}
    requires forall step :: step in run && step.RetryNow? ==> step.id != id
    ensures var end := After(st, run);
            && id in end.log && end.log[id] == st.log[id]
            && (id in end.rows ==> id in st.rows && end.rows[id] == st.rows[id])
    decreases |run|
  {
    if run != [] {
      FinishedStep(st, run[0], id);
      StepKeepsInv(st, run[0]);
      assert run[0] in run && forall step :: step in run[1..] ==> step in run;
      hide Inv, Next, Enabled;
      FinishedStays(Next(st, run[0]), run[1..], id);
    }
  }

  lemma {:induction false} FinishedStep(st: State, step: Step, id: nat)
    requires Inv(st) && Enabled(st, step) && id in st.log
    requires id in st.rows ==> st.rows[id].status in {Failed, Sent}
    requires step.RetryNow? ==> step.id != id
    ensures var next := Next(st, step);
            && id in next.log && next.log[id] == st.log[id]
            && (id in next.rows ==> id in st.rows && next.rows[id] == st.rows[id])
  {
    assert forall s :: !Holds(st, s, id);
    hide Fits;
  }

  /** A refusal that is not a 4xx ends a message for good: it is marked failed, and
      no later run claims or transmits it again unless an operator retries it. */
  lemma {:induction false} PermanentFailureStays(st: State, s: nat, id: nat, now: int, run: seq<Step>)
    requires Inv(st) && Enabled(st, MarkFailed(s, id, now))
    requires !(400 <= st.senders[s].held[id].code < 500)
    requires Possible(Next(st, MarkFailed(s, id, now)), run)
    requires forall step :: step in run && step.RetryNow? ==> step.id != id
    ensures var marked := Next(st, MarkFailed(s, id, now));
            var end := After(marked, run);
            && id in st.log && id in marked.rows && marked.rows[id].status == Failed
            && id in end.log && end.log[id] == st.log[id]
            && (id in end.rows ==> end.rows[id] == marked.rows[id])
  {
    var step := MarkFailed(s, id, now);
    var marked := Next(st, step);
    StepKeepsInv(st, step);
    HeldMessage(st, s, id);
    hide Inv;
    FinishedStays(marked, run, id);
  }
}
