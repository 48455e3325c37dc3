/** Delivering one message straight to its recipients' mail exchangers
    (src/lightr/mail/sender.py). What a remote server answers is a parameter. */
module Sender {
  import opened Text
  import opened Queue
  import Protocol = QueueProtocol
  import Runs = QueueRuns

  const TRANSIENT_CODE := 451

  datatype SendResult = Success | Failure(code: int)

  /** Whether an exception carries a usable SMTP status. */
  function CodeFrom(code: Option<int>): int {
    if code.Some? && 200 <= code.value < 600 then code.value else TRANSIENT_CODE
  }

  /** An answer to one delivery: accepted, or an exception with or without a code. */
  datatype Answer = Accept | Raise(code: Option<int>)

  /** The mail exchangers of each domain in preference order, and what each says. */
  datatype Network = Network(hosts: string -> seq<string>, answer: (string, nat) -> Answer)

  // ----- recipients by domain

  function AtIndex(s: string): (n: nat)
    requires '@' in s
    ensures n < |s| && s[n] == '@' && '@' !in s[..n]
  {
    if s[0] == '@' then 0
    else
      assert s == [s[0]] + s[1..];
      var n := 1 + AtIndex(s[1..]);
      assert s[..n] == [s[0]] + s[1..][..n - 1];
      n
  }

  /** `recipient.split("@", 1)[1].lower()` */
  function DomainOf(recipient: string): string
    requires '@' in recipient
  {
    Lower(recipient[AtIndex(recipient) + 1..])
  }

  /** The recipient domains, in the order they are first seen. */
  function DomainsOf(to: seq<string>): (ds: seq<string>)
    ensures forall d :: d in ds <==> exists r :: r in to && '@' in r && DomainOf(r) == d
    ensures forall i, j :: 0 <= i < j < |ds| ==> ds[i] != ds[j]
  {
    if to == [] then []
    else
      var init, r := to[..|to| - 1], to[|to| - 1];
      assert to == init + [r];
      var before := DomainsOf(init);
      if '@' in r && DomainOf(r) !in before then before + [DomainOf(r)] else before
  }

  /** The recipients of one domain, in order. */
  function RecipientsOf(to: seq<string>, domain: string): seq<string> {
    if to == [] then []
    else
      var init, r := to[..|to| - 1], to[|to| - 1];
      RecipientsOf(init, domain) + (if '@' in r && DomainOf(r) == domain then [r] else [])
  }

  /** Every deliverable recipient is in exactly the group of its domain. */
  lemma {:induction false} GroupsPartition(to: seq<string>, r: string, domain: string)
    ensures multiset(RecipientsOf(to, domain))[r] ==
            if '@' in r && DomainOf(r) == domain then multiset(to)[r] else 0
  {
    if to != [] {
      var init, last := to[..|to| - 1], to[|to| - 1];
      assert to == init + [last];
      GroupsPartition(init, r, domain);
    }
  }

  /** The domain is what follows the first `@`, in lower case. */
  lemma {:induction false} DomainMeans(recipient: string, local: string, host: string)
    requires recipient == local + "@" + host && '@' !in local
    ensures '@' in recipient && |DomainOf(recipient)| == |host|
    ensures forall i :: 0 <= i < |host| ==> DomainOf(recipient)[i] == LowerChar(host[i])
  {
    assert recipient[|local|] == '@';
    var n := AtIndex(recipient);
    assert forall k :: 0 <= k < |local| ==> recipient[k] == local[k] && local[k] in local;
    assert forall k :: 0 <= k < n ==> recipient[..n][k] == recipient[k] && recipient[k] in recipient[..n];
    assert recipient[n + 1..] == host;
  }

  /** The recipients of a domain are those in it, in the order given. */
  lemma {:induction false} GroupInOrder(to: seq<string>, domain: string) returns (at: seq<nat>)
    ensures Picks(to, at, RecipientsOf(to, domain))
    ensures forall i: nat :: i in at <==> i < |to| && '@' in to[i] && DomainOf(to[i]) == domain
  {
    at := [];
    if to != [] {
      var n := |to| - 1;
      var init, r := to[..n], to[n];
      at := GroupInOrder(init, domain);
      assert to == init + [r];
      hide Picks, DomainOf;
      PicksSnoc(init, at, RecipientsOf(init, domain), r);
      if '@' in r && DomainOf(r) == domain { at := at + [n]; }
      assert forall i: nat :: i < |to| ==> to[i] == if i < n then init[i] else r;
    }
  }

  /** Some recipient up to `i` is in the domain. */
  ghost predicate SeenBy(to: seq<string>, domain: string, i: nat) {
    exists j :: 0 <= j <= i && j < |to| && '@' in to[j] && DomainOf(to[j]) == domain
  }

  /** Domains come in the order they are first seen. */
  lemma {:induction false} DomainsInOrder(to: seq<string>, a: nat, b: nat, i: nat)
    requires a < b < |DomainsOf(to)| && SeenBy(to, DomainsOf(to)[b], i)
    ensures SeenBy(to, DomainsOf(to)[a], i)
  {
    var n := |to| - 1;
    var init := to[..n];
    hide DomainOf;
    var before := DomainsOf(init);
    var j :| 0 <= j <= i && j < |to| && '@' in to[j] && DomainOf(to[j]) == DomainsOf(to)[b];
    if b < |before| {
      if j == n {
        var k :| 0 <= k < |init| && '@' in init[k] && DomainOf(init[k]) == before[b];
        DomainsInOrder(init, a, b, k);
        var l :| 0 <= l <= k && l < |init| && '@' in init[l] && DomainOf(init[l]) == before[a];
        assert to[l] == init[l];
      } else {
        assert init[j] == to[j];
        DomainsInOrder(init, a, b, j);
        var l :| 0 <= l <= j && l < |init| && '@' in init[l] && DomainOf(init[l]) == before[a];
        assert to[l] == init[l];
      }
    } else {
      assert before[a] in before;
      var r :| r in init && '@' in r && DomainOf(r) == before[a];
      var k :| 0 <= k < |init| && init[k] == r;
      assert forall l :: 0 <= l < n ==> init[l] == to[l] && init[l] in init;
      assert to[k] == r && j >= n;
    }
  }

  // ----- what a delivery does

  /** The first host of a domain, from `i` on, that accepts. */
  function FirstAccepting(net: Network, domain: string, i: nat): Option<nat>
    decreases |net.hosts(domain)| - i
  {
    if i >= |net.hosts(domain)| then None
    else if net.answer(domain, i) == Accept then Some(i)
    else FirstAccepting(net, domain, i + 1)
  }

  lemma {:induction false} FirstAcceptingIsFirst(net: Network, domain: string, i: nat)
    ensures match FirstAccepting(net, domain, i)
            case Some(k) => i <= k < |net.hosts(domain)| && net.answer(domain, k) == Accept
                            && forall j :: i <= j < k ==> net.answer(domain, j) != Accept
            case None => forall j :: i <= j < |net.hosts(domain)| ==> net.answer(domain, j) != Accept
    decreases |net.hosts(domain)| - i
  {
    if i < |net.hosts(domain)| && net.answer(domain, i) != Accept { FirstAcceptingIsFirst(net, domain, i + 1); }
  }

  /** A domain with no accepting host fails with its last host's code, or as a
      transient failure when it has no host. */
  function DomainFailure(net: Network, domain: string): int {
    var n := |net.hosts(domain)|;
    if n == 0 then TRANSIENT_CODE
    else match net.answer(domain, n - 1) case Accept => TRANSIENT_CODE case Raise(code) => CodeFrom(code)
  }

  /** How many of the domains, from the first, have an accepting host before one has
      none. */
  function AcceptedPrefix(net: Network, domains: seq<string>): (n: nat)
    ensures n <= |domains|
    ensures forall i :: 0 <= i < n ==> FirstAccepting(net, domains[i], 0).Some?
    ensures n < |domains| ==> FirstAccepting(net, domains[n], 0).None?
  {
    if domains == [] || FirstAccepting(net, domains[0], 0).None? then 0
    else 1 + AcceptedPrefix(net, domains[1..])
  }

  /** One accepted delivery: to which domain, by which host, for whom. */
  datatype Delivery = Delivery(domain: string, host: nat, recipients: seq<string>)

  function DeliveriesTo(net: Network, to: seq<string>, n: nat): (ds: seq<Delivery>)
    requires n <= AcceptedPrefix(net, DomainsOf(to))
    ensures |ds| == n
  {
    var domains := DomainsOf(to);
    seq(n, i requires 0 <= i < n =>
      Delivery(domains[i], FirstAccepting(net, domains[i], 0).value, RecipientsOf(to, domains[i])))
  }

  /** The message's fate: every domain is tried in order until one has no accepting
      host. */
  function Fate(net: Network, to: seq<string>): SendResult {
    var domains := DomainsOf(to);
    var n := AcceptedPrefix(net, domains);
    if domains == [] then Failure(550)
    else if n == |domains| then Success
    else Failure(DomainFailure(net, domains[n]))
  }

  /** Groups the recipients, then delivers domain by domain. `sent` records the
      deliveries a remote server accepted. */
  method SendDirect(net: Network, to: seq<string>) returns (result: SendResult, sent: seq<Delivery>)
    ensures result == Fate(net, to)
    ensures sent == DeliveriesTo(net, to, AcceptedPrefix(net, DomainsOf(to)))
  {
    hide *;
    var order, byDomain := Group(to);
    sent := [];
    NothingSent(net, to);
    if order == [] { return Failure(550), []; }
    for d := 0 to |order|
      invariant d <= AcceptedPrefix(net, order)
      invariant sent == DeliveriesTo(net, to, d)
    {
      var domain := order[d];
      FirstAcceptingIsFirst(net, domain, 0);
      NextDomain(net, to, d);
      var hosts := net.hosts(domain);
      if hosts == [] { return Failure(TRANSIENT_CODE), sent; }
      var last, i := None, 0;
      var done := false;
      while i < |hosts| && !done
        invariant 0 <= i <= |hosts|
        invariant done ==> i < |hosts| && net.answer(domain, i) == Accept
        invariant forall j :: 0 <= j < i ==> net.answer(domain, j) != Accept
        invariant !done && i > 0 ==> last == Some(net.answer(domain, i - 1))
        decreases |hosts| - i, !done
      {
        match net.answer(domain, i)
        case Accept => done := true;
        case Raise(code) => last := Some(Raise(code)); i := i + 1;
      }
      if !done {
        return Failure(CodeFrom(last.value.code)), sent;
      }
      sent := sent + [Delivery(domain, i, byDomain[domain])];
    }
    result := Success;
  }

  lemma {:induction false} NothingSent(net: Network, to: seq<string>)
    ensures DeliveriesTo(net, to, 0) == [] && (DomainsOf(to) == [] ==> Fate(net, to) == Failure(550))
    ensures AcceptedPrefix(net, []) == 0
    ensures DomainsOf(to) != [] && AcceptedPrefix(net, DomainsOf(to)) == |DomainsOf(to)| ==> Fate(net, to) == Success
  {
  }

  /** What the next domain's hosts decide. */
  lemma {:induction false} NextDomain(net: Network, to: seq<string>, d: nat)
    requires d < |DomainsOf(to)| && d <= AcceptedPrefix(net, DomainsOf(to))
    ensures var domains := DomainsOf(to);
            var first := FirstAccepting(net, domains[d], 0);
            && domains != []
            && (first.None? ==> d == AcceptedPrefix(net, domains) && Fate(net, to) == Failure(DomainFailure(net, domains[d])))
            && (first.Some? ==> d < AcceptedPrefix(net, domains))
            && (first.Some? ==>
                  var delivery := Delivery(domains[d], first.value, RecipientsOf(to, domains[d]));
                  DeliveriesTo(net, to, d + 1) == DeliveriesTo(net, to, d) + [delivery])
            && (first.None? ==>
                  var n := |net.hosts(domains[d])|;
                  DomainFailure(net, domains[d]) == if n == 0 then TRANSIENT_CODE
                    else match net.answer(domains[d], n - 1) case Accept => TRANSIENT_CODE case Raise(code) => CodeFrom(code))
  {
    hide DomainsOf, RecipientsOf, FirstAccepting, CodeFrom;
  }

  lemma {:induction false} NoRecipients(to: seq<string>)
    ensures DomainsOf(to[..0]) == [] && forall d :: RecipientsOf(to[..0], d) == []
  {
  }

  lemma {:induction false} DomainsStep(to: seq<string>, i: nat)
    requires i < |to|
    ensures DomainsOf(to[..i + 1]) ==
      DomainsOf(to[..i]) + (if '@' in to[i] && DomainOf(to[i]) !in DomainsOf(to[..i]) then [DomainOf(to[i])] else [])
  {
    hide DomainOf;
    assert to[..i + 1][..i] == to[..i];
  }

  lemma {:induction false} RecipientsStep(to: seq<string>, i: nat, domain: string)
    requires i < |to|
    ensures RecipientsOf(to[..i + 1], domain) ==
      RecipientsOf(to[..i], domain) + (if '@' in to[i] && DomainOf(to[i]) == domain then [to[i]] else [])
  {
    hide DomainOf;
    assert to[..i + 1][..i] == to[..i];
  }

  method Group(to: seq<string>) returns (order: seq<string>, byDomain: map<string, seq<string>>)
    ensures order == DomainsOf(to)
    ensures forall d :: d in byDomain <==> d in order
    ensures forall d :: d in byDomain ==> byDomain[d] == RecipientsOf(to, d)
  {
    hide DomainsOf, RecipientsOf, DomainOf;
    order, byDomain := [], map[];
    NoRecipients(to);
    for i := 0 to |to|
      invariant order == DomainsOf(to[..i])
      invariant forall d :: d in byDomain <==> d in order
      invariant forall d :: d in byDomain ==> byDomain[d] == RecipientsOf(to[..i], d)
      invariant forall d :: d !in order ==> RecipientsOf(to[..i], d) == []
    {
      var r := to[i];
      DomainsStep(to, i);
      forall d ensures RecipientsOf(to[..i + 1], d) == RecipientsOf(to[..i], d) + (if '@' in r && DomainOf(r) == d then [r] else []) {
        RecipientsStep(to, i, d);
      }
      if '@' in r {
        var d := DomainOf(r);
        if d !in byDomain {
          order := order + [d];
          byDomain := byDomain[d := []];
        }
        byDomain := byDomain[d := byDomain[d] + [r]];
      }
    }
    assert to[..|to|] == to;
  }

  predicate Reaches(net: Network, domain: string) {
    exists k :: 0 <= k < |net.hosts(domain)| && net.answer(domain, k) == Accept
  }

  predicate AcceptsFirst(net: Network, domain: string, k: nat) {
    && k < |net.hosts(domain)| && net.answer(domain, k) == Accept
    && forall j :: 0 <= j < k ==> net.answer(domain, j) != Accept
  }

  /** What the last mail exchanger of a domain said. */
  function LastAnswer(net: Network, domain: string): Option<Answer> {
    var n := |net.hosts(domain)|;
    if n == 0 then None else Some(net.answer(domain, n - 1))
  }

  /** Success means every recipient domain has a host that accepts. After a failure the
      domains before the first that has none have got the message, each once, for its
      own recipients and by its first accepting host, and no other domain has. */
  lemma {:induction false} FateMeans(net: Network, to: seq<string>)
    ensures Fate(net, to) == Success <==> DomainsOf(to) != [] && forall d :: d in DomainsOf(to) ==> Reaches(net, d)
    ensures var domains := DomainsOf(to);
            var sent := DeliveriesTo(net, to, AcceptedPrefix(net, domains));
            && |sent| <= |domains|
            && (forall i :: 0 <= i < |sent| ==> Reaches(net, domains[i]))
            && (forall i :: 0 <= i < |sent| ==> sent[i].domain == domains[i])
            && (forall i :: 0 <= i < |sent| ==> sent[i].recipients == RecipientsOf(to, domains[i]))
            && (forall i :: 0 <= i < |sent| ==> AcceptsFirst(net, domains[i], sent[i].host))
            && (Fate(net, to).Failure? && domains != [] ==> |sent| < |domains| && !Reaches(net, domains[|sent|]))
            && (domains == [] ==> Fate(net, to) == Failure(550))
            && (|sent| < |domains| && net.hosts(domains[|sent|]) == [] ==> Fate(net, to) == Failure(451))
    ensures var domains := DomainsOf(to);
            var sent := DeliveriesTo(net, to, AcceptedPrefix(net, domains));
            forall code :: |sent| < |domains| && LastAnswer(net, domains[|sent|]) == Some(Raise(code)) ==>
              Fate(net, to) == Failure(if code.Some? && 200 <= code.value < 600 then code.value else 451)
  {
    var domains := DomainsOf(to);
    var n := AcceptedPrefix(net, domains);
    forall d ensures FirstAccepting(net, d, 0).Some? <==> Reaches(net, d) { FirstAcceptingIsFirst(net, d, 0); }
    forall i | 0 <= i < n ensures FirstAccepting(net, domains[i], 0).Some? { FirstAcceptingIsFirst(net, domains[i], 0); }
    hide FirstAccepting, AcceptedPrefix, DomainsOf, RecipientsOf, Reaches;
    forall i | 0 <= i < n ensures AcceptsFirst(net, domains[i], FirstAccepting(net, domains[i], 0).value) {
      FirstAcceptingIsFirst(net, domains[i], 0);
    }
    if n < |domains| { assert domains[n] in domains; }
  }

  /** A code outside 400..499 in an exception, even a 2xx, ends the message. */
  lemma {:induction false} UnrecognisedIsTransient(code: Option<int>)
    ensures ClassifyFailure(CodeFrom(code)) == Deferred <==>
            code == None || !(200 <= code.value < 400 || 500 <= code.value < 600)
  {
  }

  // ----- one batch

  /** A row after an attempt with that result. */
  function Attempted(row: Row, result: SendResult, now: int): Row {
    match result
    case Success => row.(status := Sent)
    case Failure(code) => FailedRow(row, code, now)
  }

  method Attempt(queue: OutboundQueue, id: nat, result: SendResult, now: int)
    requires id in queue.rows
    modifies queue
    ensures queue.rows == old(queue.rows)[id := Attempted(old(queue.rows)[id], result, now)]
  {
    match result
    case Success => queue.MarkSent(id);
    case Failure(code) =>
      var outcome := queue.MarkFailed(id, code, now);
  }

  /** `drain_once`, uninterrupted: every due message is claimed, attempted once and
      marked by its own result, and no other row changes. */
  method DrainOnce(queue: OutboundQueue, due: seq<nat>, now: int, limit: nat, results: nat -> SendResult)
    returns (attempted: nat)
    requires IsDue(queue.rows, due, now, limit)
    modifies queue
    ensures attempted == |due| && queue.rows.Keys == old(queue.rows).Keys
    ensures forall id :: id in queue.rows ==>
              queue.rows[id] == if id in due then Attempted(old(queue.rows)[id], results(id), now) else old(queue.rows)[id]
    ensures forall id :: id in due ==> id in queue.rows && queue.rows[id].status in {Sent, Deferred, Failed}
  {
    hide IsDue;
    DueRows(queue.rows, due, now, limit);
    var claimed := queue.Claim(due, now, limit);
    for i := 0 to |claimed|
      invariant queue.rows.Keys == old(queue.rows).Keys
      invariant forall id :: id in queue.rows ==>
                  queue.rows[id] == if id in due[..i] then Attempted(old(queue.rows)[id], results(id), now)
                                    else if id in due then old(queue.rows)[id].(status := Sending)
                                    else old(queue.rows)[id]
    {
      assert due[i] in due && due[i] !in due[..i];
      Attempt(queue, claimed[i], results(claimed[i]), now);
      assert due[..i + 1] == due[..i] + [due[i]];
    }
    assert due[..|due|] == due;
    attempted := |claimed|;
  }

  lemma {:induction false} DueRows(rows: map<nat, Row>, due: seq<nat>, now: int, limit: nat)
    requires IsDue(rows, due, now, limit)
    ensures forall id :: id in due ==> id in rows
    ensures forall i, j :: 0 <= i < j < |due| ==> due[i] != due[j]
  {
  }

  // ----- one attempt as steps of the shared queue

  function CodeOf(result: SendResult): int { match result case Success => 250 case Failure(code) => code }

  function Attempting(net: Network, to: seq<string>, s: nat, id: nat): Protocol.Step {
    Protocol.Transmit(s, id, AcceptedPrefix(net, DomainsOf(to)), CodeOf(Fate(net, to)))
  }

  function Marking(result: SendResult, s: nat, id: nat, now: int): Protocol.Step {
    match result case Success => Protocol.MarkSent(s, id) case Failure(_) => Protocol.MarkFailed(s, id, now)
  }

  ghost predicate Delivers(net: Network, to: seq<string>, domain: string) {
    exists delivery :: delivery in DeliveriesTo(net, to, AcceptedPrefix(net, DomainsOf(to))) && delivery.domain == domain
  }

  /** What `SendDirect` does for a claimed message is one transmission of the protocol,
      with a group for each recipient domain: the mark that follows is the one for its
      result, the row becomes what `Attempt` makes it, and each domain's count of
      deliveries grows exactly when `SendDirect` delivered to it. */
  lemma {:induction false} SendIsTransmission(st: Protocol.State, s: nat, id: nat, net: Network, to: seq<string>, now: int)
    requires Protocol.Holds(st, s, id) && st.senders[s].held[id] == Protocol.Claimed
    requires id in st.rows && id in st.log && st.log[id].groups == |DomainsOf(to)|
    ensures Protocol.Enabled(st, Attempting(net, to, s, id))
    ensures var sent := Protocol.Next(st, Attempting(net, to, s, id));
            && Protocol.Enabled(sent, Marking(Fate(net, to), s, id, now))
            && Protocol.Next(sent, Marking(Fate(net, to), s, id, now)).rows ==
               st.rows[id := Attempted(st.rows[id], Fate(net, to), now)]
            && id in sent.log
            && forall k :: 0 <= k < |DomainsOf(to)| ==>
                 Runs.Deliveries(sent.log[id].transmissions, k) ==
                 Runs.Deliveries(st.log[id].transmissions, k) + (if Delivers(net, to, DomainsOf(to)[k]) then 1 else 0)
  {
    var domains := DomainsOf(to);
    var n := AcceptedPrefix(net, domains);
    assert n <= |domains| && (Fate(net, to) == Success <==> n == |domains| && n > 0);
    forall k | 0 <= k < |domains|
      ensures Runs.Deliveries(st.log[id].transmissions + [n], k) ==
              Runs.Deliveries(st.log[id].transmissions, k) + (if Delivers(net, to, domains[k]) then 1 else 0)
    {
      Runs.DeliveriesAppend(st.log[id].transmissions, n, k);
      DeliversIff(net, to, k);
    }
    hide Fate, AcceptedPrefix, DomainsOf, Runs.Deliveries, Delivers;
    TransmitThenMark(st, s, id, n, Fate(net, to), now);
  }

  lemma {:induction false} TransmitThenMark(st: Protocol.State, s: nat, id: nat, n: nat, result: SendResult, now: int)
    requires Protocol.Holds(st, s, id) && st.senders[s].held[id] == Protocol.Claimed
    requires id in st.rows && id in st.log && n <= st.log[id].groups
    requires result == Success <==> n == st.log[id].groups && n > 0
    ensures var step := Protocol.Transmit(s, id, n, CodeOf(result));
            var sent := Protocol.Next(st, step);
            && Protocol.Enabled(st, step) && Protocol.Enabled(sent, Marking(result, s, id, now))
            && Protocol.Next(sent, Marking(result, s, id, now)).rows == st.rows[id := Attempted(st.rows[id], result, now)]
            && id in sent.log && sent.log[id].transmissions == st.log[id].transmissions + [n]
  {
    hide FailedRow;
  }

  lemma {:induction false} DeliversIff(net: Network, to: seq<string>, k: nat)
    requires k < |DomainsOf(to)|
    ensures Delivers(net, to, DomainsOf(to)[k]) <==> k < AcceptedPrefix(net, DomainsOf(to))
  {
    var sent := DeliveriesTo(net, to, AcceptedPrefix(net, DomainsOf(to)));
    hide AcceptedPrefix, DomainsOf, RecipientsOf, FirstAccepting;
    if k < |sent| { assert sent[k] in sent && sent[k].domain == DomainsOf(to)[k]; }
  }
}
