/** Where a recipient's mail goes: alias expansion and the routing decision
    (src/lightr/mail/routing.py). */
module Routing {
  import opened Text

  const MAX_ALIAS_DEPTH: nat := 5

  datatype AliasType = Forward | Bridge
  datatype Alias = Alias(kind: AliasType, destinations: seq<string>)
  datatype Account = Account(disabled: bool, canReceive: bool)

  /** The tables routing reads. Accounts and active aliases are keyed by domain
      name and local part; `replyTokens` holds the local parts that carry a live
      reply token. */
  datatype Directory = Directory(domains: set<string>,
                                 accounts: map<(string, string), Account>,
                                 aliases: map<(string, string), Alias>,
                                 suppressed: set<string>,
                                 replyTokens: set<string>)

  // ----- addresses

  function Canon(s: string): string { Lower(Strip(s)) }

  /** Length of the part before the first `@`, or of the whole text. */
  function LocalLen(s: string): (n: nat)
    ensures n <= |s|
    ensures '@' in s ==> n < |s| && s[n] == '@'
    ensures '@' !in s[..n]
  {
    if s == "" || s[0] == '@' then 0
    else
      var n := 1 + LocalLen(s[1..]);
      assert s[..n] == [s[0]] + s[1..][..n - 1];
      n
  }

  function LocalPart(address: string): string { address[..LocalLen(address)] }

  function DomainPart(address: string): string
    requires '@' in address
  {
    address[LocalLen(address) + 1..]
  }

  function RStripDots(s: string): string {
    if s != "" && s[|s| - 1] == '.' then RStripDots(s[..|s| - 1]) else s
  }

  /** The domain a name refers to: trailing dots do not count, and an address
      refers to its own domain. */
  function ResolveDomain(dir: Directory, ref: string): Option<string> {
    var name := RStripDots(Canon(ref));
    var bare := if '@' in name then DomainPart(name) else name;
    if bare in dir.domains then Some(bare) else None
  }

  /** An account is found by its exact domain name. */
  function FindAccount(dir: Directory, email: string): Option<Account> {
    var value := Canon(email);
    if '@' in value && DomainPart(value) in dir.domains && (DomainPart(value), LocalPart(value)) in dir.accounts
    then Some(dir.accounts[(DomainPart(value), LocalPart(value))]) else None
  }

  function LookupAlias(dir: Directory, domain: string, local: string): Option<Alias> {
    var key := (domain, Lower(local));
    if key in dir.aliases then Some(dir.aliases[key]) else None
  }

  // ----- alias expansion

  /** What an address is to the expansion. */
  datatype Kind = External | Mailbox | Missing | Alias_(destinations: seq<string>)

  function KindOf(dir: Directory, address: string): Kind
    requires '@' in address
  {
    match ResolveDomain(dir, DomainPart(address))
    case None => External
    case Some(domain) =>
      if FindAccount(dir, address).Some? then Mailbox
      else
        match LookupAlias(dir, domain, LocalPart(address))
        case None => Missing
        case Some(alias) => Alias_(alias.destinations)
  }

  /** `list(dict.fromkeys(s))` */
  function Dedup(s: seq<string>): (r: seq<string>)
    ensures forall x :: x in r <==> x in s
  {
    if s == [] then []
    else
      var init, last := s[..|s| - 1], s[|s| - 1];
      assert s == init + [last];
      if last in init then Dedup(init) else Dedup(init) + [last]
  }

  /** The destinations an address list resolves to, or None on a loop. */
  function Expand(dir: Directory, destinations: seq<string>, seen: set<string>, depth: nat): Option<seq<string>>
    decreases if depth > MAX_ALIAS_DEPTH then 0 else MAX_ALIAS_DEPTH - depth, |destinations| + 1
  {
    if depth >= MAX_ALIAS_DEPTH then None
    else
      match Collect(dir, destinations, seen, depth)
      case None => None
      case Some(resolved) => Some(Dedup(resolved))
  }

  function Collect(dir: Directory, destinations: seq<string>, seen: set<string>, depth: nat): Option<seq<string>>
    requires depth < MAX_ALIAS_DEPTH
    decreases MAX_ALIAS_DEPTH - depth, |destinations|
  {
    if destinations == [] then Some([])
    else
      match Collect(dir, destinations[..|destinations| - 1], seen, depth)
      case None => None
      case Some(resolved) =>
        match Visit(dir, destinations[|destinations| - 1], seen, depth)
        case None => None
        case Some(more) => Some(resolved + more)
  }

  /** What one destination adds. */
  function Visit(dir: Directory, destination: string, seen: set<string>, depth: nat): Option<seq<string>>
    requires depth < MAX_ALIAS_DEPTH
    decreases MAX_ALIAS_DEPTH - depth, 0
  {
    var address := Canon(destination);
    if '@' !in address then Some([])
    else if address in seen then None
    else
      match KindOf(dir, address)
      case External => Some([address])
      case Mailbox => Some([address])
      case Missing => Some([])
      case Alias_(nested) => Expand(dir, nested, seen + {address}, depth + 1)
  }

  method ExpandAliases(dir: Directory, destinations: seq<string>, seen: set<string>, depth: nat)
    returns (r: Option<seq<string>>)
    ensures r == Expand(dir, destinations, seen, depth)
    decreases if depth > MAX_ALIAS_DEPTH then 0 else MAX_ALIAS_DEPTH - depth
  {
    hide KindOf, Canon, Dedup, Collect;
    if depth >= MAX_ALIAS_DEPTH { return None; }
    CollectStart(dir, seen, depth);
    assert destinations[..0] == [];
    var resolved := [];
    for i := 0 to |destinations|
      invariant Collect(dir, destinations[..i], seen, depth) == Some(resolved)
    {
      CollectStep(dir, destinations, i, seen, depth);
      var address := Canon(destinations[i]);
      ghost var more := Visit(dir, destinations[i], seen, depth);
      if '@' !in address {
        assert resolved + [] == resolved;
      } else if address in seen {
        return None;
      } else {
        match KindOf(dir, address)
        case External => resolved := resolved + [address];
        case Mailbox => resolved := resolved + [address];
        case Missing => assert resolved + [] == resolved;
        case Alias_(nested) =>
          var inner := ExpandAliases(dir, nested, seen + {address}, depth + 1);
          if inner.None? { return None; }
          resolved := resolved + inner.value;
      }
    }
    assert destinations[..|destinations|] == destinations;
    r := Some(Dedup(resolved));
  }

  lemma {:induction false} CollectStart(dir: Directory, seen: set<string>, depth: nat)
    requires depth < MAX_ALIAS_DEPTH
    ensures Collect(dir, [], seen, depth) == Some([])
  {
  }

  /** One turn of the loop: a destination that loops makes the whole list loop, and
      any other adds what it resolves to. */
  lemma {:induction false} CollectStep(dir: Directory, destinations: seq<string>, i: nat, seen: set<string>, depth: nat)
    requires depth < MAX_ALIAS_DEPTH && i < |destinations|
    requires Collect(dir, destinations[..i], seen, depth).Some?
    ensures var before, more := Collect(dir, destinations[..i], seen, depth), Visit(dir, destinations[i], seen, depth);
            && (more.Some? ==> Collect(dir, destinations[..i + 1], seen, depth) == Some(before.value + more.value))
            && (more.None? ==> Expand(dir, destinations, seen, depth).None?)
  {
    hide Visit;
    assert destinations[..i + 1][..i] == destinations[..i];
    if Visit(dir, destinations[i], seen, depth).None? { CollectFails(dir, destinations, i + 1, seen, depth); }
  }

  lemma {:induction false} CollectFails(dir: Directory, destinations: seq<string>, n: nat, seen: set<string>, depth: nat)
    requires depth < MAX_ALIAS_DEPTH && n <= |destinations|
    requires Collect(dir, destinations[..n], seen, depth).None?
    ensures Collect(dir, destinations, seen, depth).None?
  {
    hide Visit;
    if n == |destinations| {
      assert destinations[..n] == destinations;
    } else {
      var init := destinations[..|destinations| - 1];
      assert init[..n] == destinations[..n];
      CollectFails(dir, init, n, seen, depth);
    }
  }

  // ----- alias paths, independent of the expansion

  ghost predicate Listed(destinations: seq<string>, address: string) {
    '@' in address && exists d :: d in destinations && Canon(d) == address
  }

  ghost predicate IsAlias(dir: Directory, address: string) {
    '@' in address && KindOf(dir, address).Alias_?
  }

  ghost predicate Deliverable(dir: Directory, address: string) {
    '@' in address && (KindOf(dir, address).External? || KindOf(dir, address).Mailbox?)
  }

  /** A path of addresses: the first is one of `destinations`, and each next one a
      destination of the alias before it. */
  ghost predicate Path(dir: Directory, destinations: seq<string>, p: seq<string>)
    decreases |p|
  {
    && p != [] && Listed(destinations, p[0])
    && (|p| > 1 ==> IsAlias(dir, p[0]) && Path(dir, KindOf(dir, p[0]).destinations, p[1..]))
  }

  /** The path comes back to an address it, or what led to it, already holds. */
  ghost predicate Returns(p: seq<string>, seen: set<string>) {
    p != [] && (p[|p| - 1] in seen || p[|p| - 1] in p[..|p| - 1])
  }

  /** The path is made of aliases only, so its last one is opened too. */
  ghost predicate AllAliases(dir: Directory, p: seq<string>) { forall a :: a in p ==> IsAlias(dir, a) }

  ghost predicate LoopingPath(dir: Directory, destinations: seq<string>, seen: set<string>, budget: nat, p: seq<string>) {
    && Path(dir, destinations, p) && |p| <= budget
    && (Returns(p, seen) || (AllAliases(dir, p) && |p| == budget))
  }

  lemma {:induction false} CollectLoops(dir: Directory, destinations: seq<string>, seen: set<string>, depth: nat)
    requires depth < MAX_ALIAS_DEPTH
    ensures Collect(dir, destinations, seen, depth).None? <==>
            exists i :: 0 <= i < |destinations| && Visit(dir, destinations[i], seen, depth).None?
  {
    hide Visit;
    if destinations != [] {
      var n := |destinations| - 1;
      var init := destinations[..n];
      CollectLoops(dir, init, seen, depth);
      if i :| 0 <= i < |init| && Visit(dir, init[i], seen, depth).None? {
        assert destinations[i] == init[i];
      }
      if i :| 0 <= i < |destinations| && Visit(dir, destinations[i], seen, depth).None? {
        if i < n { assert init[i] == destinations[i]; }
      }
    }
  }

  /** A path that loops makes the expansion loop. */
  lemma {:induction false} LoopSound(dir: Directory, destinations: seq<string>, seen: set<string>, depth: nat, p: seq<string>)
    requires depth < MAX_ALIAS_DEPTH
    requires LoopingPath(dir, destinations, seen, MAX_ALIAS_DEPTH - depth, p)
    ensures Expand(dir, destinations, seen, depth).None?
    decreases |p|
  {
    hide KindOf, Canon;
    var a := p[0];
    var d :| d in destinations && Canon(d) == a;
    var i :| 0 <= i < |destinations| && destinations[i] == d;
    CollectLoops(dir, destinations, seen, depth);
    if a !in seen {
      if |p| == 1 {
        assert p[..0] == [];
        assert a in p;
        assert Visit(dir, d, seen, depth) == Expand(dir, KindOf(dir, a).destinations, seen + {a}, depth + 1);
      } else {
        var rest := p[1..];
        assert p == [a] + rest;
        assert p[|p| - 1] == rest[|rest| - 1];
        assert p[..|p| - 1] == [a] + rest[..|rest| - 1];
        LoopSound(dir, KindOf(dir, a).destinations, seen + {a}, depth + 1, rest);
      }
    }
    assert Visit(dir, destinations[i], seen, depth).None?;
  }

  /** When the expansion loops there is a path that shows it. */
  lemma {:induction false} LoopComplete(dir: Directory, destinations: seq<string>, seen: set<string>, depth: nat)
    returns (p: seq<string>)
    requires depth < MAX_ALIAS_DEPTH
    requires Expand(dir, destinations, seen, depth).None?
    ensures LoopingPath(dir, destinations, seen, MAX_ALIAS_DEPTH - depth, p)
    decreases MAX_ALIAS_DEPTH - depth
  {
    hide KindOf, Canon;
    CollectLoops(dir, destinations, seen, depth);
    var i :| 0 <= i < |destinations| && Visit(dir, destinations[i], seen, depth).None?;
    var a := Canon(destinations[i]);
    assert destinations[i] in destinations && Listed(destinations, a);
    p := [a];
    if a !in seen && depth + 1 < MAX_ALIAS_DEPTH {
      var rest := LoopComplete(dir, KindOf(dir, a).destinations, seen + {a}, depth + 1);
      p := [a] + rest;
      assert p[1..] == rest;
      assert p[|p| - 1] == rest[|rest| - 1];
      assert p[..|p| - 1] == [a] + rest[..|rest| - 1];
    }
  }

  /** The expansion of an alias's destinations signals a loop exactly when some
      alias path from them returns to an address already on it, the alias itself
      included, or opens `MAX_ALIAS_DEPTH` aliases. */
  lemma {:induction false} ExpandLoopsIff(dir: Directory, destinations: seq<string>, root: string)
    ensures Expand(dir, destinations, {root}, 0).None? <==>
            exists p :: LoopingPath(dir, destinations, {root}, MAX_ALIAS_DEPTH, p)
  {
    hide KindOf, Canon;
    if Expand(dir, destinations, {root}, 0).None? {
      var p := LoopComplete(dir, destinations, {root}, 0);
    }
    if p :| LoopingPath(dir, destinations, {root}, MAX_ALIAS_DEPTH, p) {
      LoopSound(dir, destinations, {root}, 0, p);
    }
  }

  // ----- what the expansion returns

  /** Every deliverable address met when aliases are simply opened in order, as
      often as it is met. */
  ghost function Visits(dir: Directory, destinations: seq<string>, fuel: nat): seq<string>
    decreases fuel, |destinations|
  {
    if destinations == [] || fuel == 0 then []
    else
      var a := Canon(destinations[0]);
      (if '@' !in a then []
       else if Deliverable(dir, a) then [a]
       else if IsAlias(dir, a) then Visits(dir, KindOf(dir, a).destinations, fuel - 1)
       else [])
      + Visits(dir, destinations[1..], fuel)
  }

  lemma {:induction false} VisitsConcat(dir: Directory, a: seq<string>, b: seq<string>, fuel: nat)
    ensures Visits(dir, a + b, fuel) == Visits(dir, a, fuel) + Visits(dir, b, fuel)
    decreases |a|
  {
    hide KindOf, Canon;
    if a == [] {
      assert a + b == b;
    } else {
      assert (a + b)[1..] == a[1..] + b;
      VisitsConcat(dir, a[1..], b, fuel);
    }
  }

  lemma {:induction false} DedupLast(s: seq<string>, x: string)
    ensures Dedup(s + [x]) == if x in s then Dedup(s) else Dedup(s) + [x]
  {
    assert (s + [x])[..|s|] == s;
  }

  lemma {:induction false} DedupLeft(a: seq<string>, b: seq<string>)
    ensures Dedup(Dedup(a) + b) == Dedup(a + b)
    decreases |b|
  {
    if b == [] {
      assert a + b == a && Dedup(a) + b == Dedup(a);
      DedupFixed(a);
    } else {
      var init, x := b[..|b| - 1], b[|b| - 1];
      assert a + b == (a + init) + [x] && Dedup(a) + b == (Dedup(a) + init) + [x];
      DedupLast(a + init, x);
      DedupLast(Dedup(a) + init, x);
      DedupLeft(a, init);
    }
  }

  lemma {:induction false} DedupFixed(a: seq<string>)
    ensures Dedup(Dedup(a)) == Dedup(a)
    decreases |a|
  {
    if a != [] {
      var init, x := a[..|a| - 1], a[|a| - 1];
      DedupFixed(init);
      DedupLast(Dedup(init), x);
    }
  }

  lemma {:induction false} DedupRight(a: seq<string>, b: seq<string>)
    ensures Dedup(a + Dedup(b)) == Dedup(a + b)
    decreases |b|
  {
    if b != [] {
      var init, x := b[..|b| - 1], b[|b| - 1];
      DedupRight(a, init);
      assert a + b == (a + init) + [x] && b == init + [x];
      DedupLast(a + init, x);
      DedupLast(init, x);
      if x !in init {
        assert a + Dedup(b) == (a + Dedup(init)) + [x];
        DedupLast(a + Dedup(init), x);
      }
    }
  }

  /** Without a loop, the expansion is the visits in order with repeats dropped. */
  lemma {:induction false} ExpandIsVisits(dir: Directory, destinations: seq<string>, seen: set<string>, depth: nat)
    requires Expand(dir, destinations, seen, depth).Some?
    ensures depth < MAX_ALIAS_DEPTH
    ensures Expand(dir, destinations, seen, depth).value == Dedup(Visits(dir, destinations, MAX_ALIAS_DEPTH - depth))
    decreases if depth > MAX_ALIAS_DEPTH then 0 else MAX_ALIAS_DEPTH - depth, 1
  {
    CollectIsVisits(dir, destinations, seen, depth);
  }

  lemma {:induction false} CollectIsVisits(dir: Directory, destinations: seq<string>, seen: set<string>, depth: nat)
    requires depth < MAX_ALIAS_DEPTH && Collect(dir, destinations, seen, depth).Some?
    ensures Dedup(Collect(dir, destinations, seen, depth).value) ==
            Dedup(Visits(dir, destinations, MAX_ALIAS_DEPTH - depth))
    decreases MAX_ALIAS_DEPTH - depth, 0, |destinations|
  {
    hide KindOf, Canon;
    if destinations != [] {
      CollectUnfold(dir, destinations, seen, depth);
      hide *;
      var init, last := destinations[..|destinations| - 1], destinations[|destinations| - 1];
      CollectIsVisits(dir, init, seen, depth);
      VisitIsVisits(dir, last, seen, depth);
      VisitsLast(dir, destinations, MAX_ALIAS_DEPTH - depth,
                 Collect(dir, init, seen, depth).value, Visit(dir, last, seen, depth).value);
    }
  }

  lemma {:induction false} VisitsLast(dir: Directory, destinations: seq<string>, fuel: nat, before: seq<string>, more: seq<string>)
    requires destinations != []
    requires Dedup(before) == Dedup(Visits(dir, destinations[..|destinations| - 1], fuel))
    requires Dedup(more) == Dedup(Visits(dir, [destinations[|destinations| - 1]], fuel))
    ensures Dedup(before + more) == Dedup(Visits(dir, destinations, fuel))
  {
    hide *;
    var init, last := destinations[..|destinations| - 1], destinations[|destinations| - 1];
    VisitsConcat(dir, init, [last], fuel);
    assert destinations == init + [last];
    DedupBoth(before, more, Visits(dir, init, fuel), Visits(dir, [last], fuel));
  }

  lemma {:induction false} CollectUnfold(dir: Directory, destinations: seq<string>, seen: set<string>, depth: nat)
    requires depth < MAX_ALIAS_DEPTH && destinations != [] && Collect(dir, destinations, seen, depth).Some?
    ensures var init, last := destinations[..|destinations| - 1], destinations[|destinations| - 1];
            && Collect(dir, init, seen, depth).Some? && Visit(dir, last, seen, depth).Some?
            && Collect(dir, destinations, seen, depth).value
               == Collect(dir, init, seen, depth).value + Visit(dir, last, seen, depth).value
  {
    hide Visit;
  }

  lemma {:induction false} DedupBoth(a: seq<string>, b: seq<string>, c: seq<string>, d: seq<string>)
    requires Dedup(a) == Dedup(c) && Dedup(b) == Dedup(d)
    ensures Dedup(a + b) == Dedup(c + d)
  {
    hide Dedup;
    DedupLeft(a, b);
    DedupRight(Dedup(a), b);
    DedupLeft(c, d);
    DedupRight(Dedup(c), d);
  }

  lemma {:induction false} VisitIsVisits(dir: Directory, destination: string, seen: set<string>, depth: nat)
    requires depth < MAX_ALIAS_DEPTH && Visit(dir, destination, seen, depth).Some?
    ensures Dedup(Visit(dir, destination, seen, depth).value) ==
            Dedup(Visits(dir, [destination], MAX_ALIAS_DEPTH - depth))
    decreases MAX_ALIAS_DEPTH - depth, 0, 0
  {
    hide KindOf, Canon;
    var a, fuel := Canon(destination), MAX_ALIAS_DEPTH - depth;
    var more, v := Visit(dir, destination, seen, depth).value, Visits(dir, [destination], fuel);
    assert [destination][1..] == [] && Visits(dir, [destination][1..], fuel) == [];
    if '@' in a && KindOf(dir, a).Alias_? {
      var nested := KindOf(dir, a).destinations;
      assert MAX_ALIAS_DEPTH - (depth + 1) == fuel - 1;
      ExpandIsVisits(dir, nested, seen + {a}, depth + 1);
      var met := Visits(dir, nested, fuel - 1);
      assert more == Dedup(met);
      DedupFixed(met);
      assert v == met + [] == met;
    } else {
      assert v == more + [];
    }
  }

  /** Visits are exactly the deliverable ends of alias paths within the budget. */
  lemma {:induction false} VisitsArePaths(dir: Directory, destinations: seq<string>, fuel: nat, a: string)
    ensures a in Visits(dir, destinations, fuel) <==>
            exists p :: Path(dir, destinations, p) && |p| <= fuel && p[|p| - 1] == a && Deliverable(dir, a)
    decreases fuel, |destinations|
  {
    if a in Visits(dir, destinations, fuel) {
      var p := PathOfVisit(dir, destinations, fuel, a);
    }
    forall p | Path(dir, destinations, p) && |p| <= fuel && p[|p| - 1] == a && Deliverable(dir, a)
      ensures a in Visits(dir, destinations, fuel)
    {
      VisitOfPath(dir, destinations, fuel, p);
    }
  }

  lemma {:induction false} PathOfVisit(dir: Directory, destinations: seq<string>, fuel: nat, a: string)
    returns (p: seq<string>)
    requires a in Visits(dir, destinations, fuel)
    ensures Path(dir, destinations, p) && |p| <= fuel && p[|p| - 1] == a && Deliverable(dir, a)
    decreases fuel, |destinations|
  {
    hide KindOf, Canon, Dedup;
    var b := Canon(destinations[0]);
    assert destinations[0] in destinations;
    if a in Visits(dir, destinations[1..], fuel) {
      p := PathOfVisit(dir, destinations[1..], fuel, a);
    } else if Deliverable(dir, b) {
      p := [b];
    } else {
      var rest := PathOfVisit(dir, KindOf(dir, b).destinations, fuel - 1, a);
      p := [b] + rest;
      assert p[1..] == rest;
    }
  }

  lemma {:induction false} VisitOfPath(dir: Directory, destinations: seq<string>, fuel: nat, p: seq<string>)
    requires Path(dir, destinations, p) && |p| <= fuel && Deliverable(dir, p[|p| - 1])
    ensures p[|p| - 1] in Visits(dir, destinations, fuel)
    decreases fuel, |destinations|
  {
    hide KindOf, Canon, Dedup;
    var d :| d in destinations && Canon(d) == p[0];
    if d == destinations[0] {
      if |p| > 1 {
        assert p[1..][|p| - 2] == p[|p| - 1];
        VisitOfPath(dir, KindOf(dir, p[0]).destinations, fuel - 1, p[1..]);
      }
    } else {
      assert destinations == [destinations[0]] + destinations[1..];
      assert d in destinations[1..] && Listed(destinations[1..], p[0]);
      VisitOfPath(dir, destinations[1..], fuel, p);
    }
  }

  ghost predicate NoRepeats(s: seq<string>) { forall i, j :: 0 <= i < j < |s| ==> s[i] != s[j] }

  lemma {:induction false} DedupNoRepeats(s: seq<string>)
    ensures NoRepeats(Dedup(s))
    decreases |s|
  {
    if s != [] { DedupNoRepeats(s[..|s| - 1]); }
  }

  /** Where `x` first occurs. */
  ghost function FirstAt(s: seq<string>, x: string): (i: nat)
    requires x in s
    ensures i < |s| && s[i] == x && forall k :: 0 <= k < i ==> s[k] != x
  {
    if s[0] == x then 0
    else
      assert s == [s[0]] + s[1..];
      1 + FirstAt(s[1..], x)
  }

  lemma {:induction false} FirstUnique(s: seq<string>, x: string, i: nat)
    requires i < |s| && s[i] == x && forall k :: 0 <= k < i ==> s[k] != x
    ensures FirstAt(s, x) == i
  {
  }

  /** Dropping repeats keeps first-occurrence order. */
  lemma {:induction false} DedupFirstOrder(s: seq<string>, i: nat, j: nat)
    requires i < j < |Dedup(s)|
    ensures FirstAt(s, Dedup(s)[i]) < FirstAt(s, Dedup(s)[j])
    decreases |s|
  {
    var init, last := s[..|s| - 1], s[|s| - 1];
    assert s == init + [last];
    forall x | x in init ensures FirstAt(s, x) == FirstAt(init, x) {
      FirstUnique(s, x, FirstAt(init, x));
    }
    if j < |Dedup(init)| {
      DedupFirstOrder(init, i, j);
    } else {
      var x := Dedup(s)[i];
      assert x == Dedup(init)[i] && x in init;
      assert last !in init;
      FirstUnique(s, last, |init|);
    }
  }

  /** When no path loops, the expansion returns exactly the deliverable addresses
      alias paths reach, each once, in the order they are first visited. */
  lemma {:induction false} ExpandReturns(dir: Directory, destinations: seq<string>, root: string)
    requires !exists p :: LoopingPath(dir, destinations, {root}, MAX_ALIAS_DEPTH, p)
    ensures Expand(dir, destinations, {root}, 0).Some?
    ensures var r := Expand(dir, destinations, {root}, 0).value;
            var met := Visits(dir, destinations, MAX_ALIAS_DEPTH);
            && NoRepeats(r)
            && (forall a :: a in r <==> exists p :: Path(dir, destinations, p) && p[|p| - 1] == a && Deliverable(dir, a))
            && (forall a :: a in r <==> a in met)
            && (forall i, j :: 0 <= i < j < |r| ==> FirstAt(met, r[i]) < FirstAt(met, r[j]))
  {
    hide KindOf, Canon, Expand, Visits, Dedup, FirstAt, NoRepeats, Deliverable, LoopingPath;
    ExpandLoopsIff(dir, destinations, root);
    ExpandIsVisits(dir, destinations, {root}, 0);
    var met := Visits(dir, destinations, MAX_ALIAS_DEPTH);
    DedupNoRepeats(met);
    DedupOrder(met);
    forall a
      ensures a in met <==> exists p :: Path(dir, destinations, p) && p[|p| - 1] == a && Deliverable(dir, a)
    {
      MetIffReached(dir, destinations, root, a);
    }
  }

  lemma {:induction false} DedupOrder(met: seq<string>)
    ensures forall i, j :: 0 <= i < j < |Dedup(met)| ==> FirstAt(met, Dedup(met)[i]) < FirstAt(met, Dedup(met)[j])
  {
    hide FirstAt, Dedup;
    forall i, j | 0 <= i < j < |Dedup(met)| ensures FirstAt(met, Dedup(met)[i]) < FirstAt(met, Dedup(met)[j]) {
      DedupFirstOrder(met, i, j);
    }
  }

  lemma {:induction false} MetIffReached(dir: Directory, destinations: seq<string>, root: string, a: string)
    requires !exists p :: LoopingPath(dir, destinations, {root}, MAX_ALIAS_DEPTH, p)
    ensures a in Visits(dir, destinations, MAX_ALIAS_DEPTH) <==>
            exists p :: Path(dir, destinations, p) && p[|p| - 1] == a && Deliverable(dir, a)
  {
    hide KindOf, Canon, Visits, Deliverable, LoopingPath;
    VisitsArePaths(dir, destinations, MAX_ALIAS_DEPTH, a);
    forall p | Path(dir, destinations, p) && p[|p| - 1] == a && Deliverable(dir, a)
      ensures |p| <= MAX_ALIAS_DEPTH
    {
      if |p| > MAX_ALIAS_DEPTH { LongPathLoops(dir, destinations, {root}, p); }
    }
  }

  /** A path longer than the bound opens too many aliases. */
  lemma {:induction false} LongPathLoops(dir: Directory, destinations: seq<string>, seen: set<string>, p: seq<string>)
    ensures Path(dir, destinations, p) && |p| > MAX_ALIAS_DEPTH ==>
              LoopingPath(dir, destinations, seen, MAX_ALIAS_DEPTH, p[..MAX_ALIAS_DEPTH])
  {
    hide KindOf, Canon;
    if |p| > MAX_ALIAS_DEPTH { PathPrefix(dir, destinations, p, MAX_ALIAS_DEPTH); }
  }

  lemma {:induction false} PathPrefix(dir: Directory, destinations: seq<string>, p: seq<string>, n: nat)
    requires 0 < n < |p|
    ensures Path(dir, destinations, p) ==> Path(dir, destinations, p[..n]) && AllAliases(dir, p[..n])
    decreases n
  {
    hide KindOf, Canon;
    var q := p[..n];
    if n == 1 {
      assert q == [p[0]];
    } else if IsAlias(dir, p[0]) {
      PathPrefix(dir, KindOf(dir, p[0]).destinations, p[1..], n - 1);
      assert q[1..] == p[1..][..n - 1];
      assert q == [p[0]] + q[1..];
    }
  }

  // ----- the routing decision

  datatype Disposition = Local | AliasForward | AliasBridge | Reply | Reject

  datatype Reason = NotLocalDomain | NoSuchMailbox | Suppressed | AliasLoop | AccountDisabled | ReceivingBlocked

  datatype Route = Route(disposition: Disposition, reason: Option<Reason>, mailbox: Option<string>,
                         forwardTo: seq<string>)

  function Refuse(reason: Reason): Route { Route(Reject, Some(reason), None, []) }

  function RouteFor(dir: Directory, recipient: string): Route {
    var address := Canon(recipient);
    if '@' !in address then Refuse(NoSuchMailbox)
    else if address in dir.suppressed then Refuse(Suppressed)
    else
      var local := LocalPart(address);
      match ResolveDomain(dir, DomainPart(address))
      case None => Refuse(NotLocalDomain)
      case Some(domain) =>
        if local in dir.replyTokens then Route(Reply, None, None, [])
        else
          match FindAccount(dir, address)
          case Some(account) => RouteAccount(dir, address, domain, local, account)
          case None => RouteAlias(dir, address, domain, local)
  }

  function RouteAccount(dir: Directory, address: string, domain: string, local: string, account: Account): Route {
    if account.disabled then Refuse(AccountDisabled)
    else if !account.canReceive then Refuse(ReceivingBlocked)
    else
      var bridge := LookupAlias(dir, domain, local);
      if bridge.Some? && bridge.value.kind == Bridge then
        match Expand(dir, bridge.value.destinations, {address}, 0)
        case None => Refuse(AliasLoop)
        case Some(to) =>
          if to != [] then Route(AliasBridge, None, Some(address), to) else Route(Local, None, Some(address), [])
      else Route(Local, None, Some(address), [])
  }

  function RouteAlias(dir: Directory, address: string, domain: string, local: string): Route {
    match LookupAlias(dir, domain, local)
    case None => Refuse(NoSuchMailbox)
    case Some(alias) =>
      match Expand(dir, alias.destinations, {address}, 0)
      case None => Refuse(AliasLoop)
      case Some(to) =>
        if to == [] then Refuse(NoSuchMailbox)
        else if alias.kind == Bridge && HasMailbox(dir, domain, local)
        then Route(AliasBridge, None, Some(local + "@" + domain), to)
        else Route(AliasForward, None, None, to)
  }

  /** The account a bridge alias mirrors into, looked up by domain and local part. */
  predicate HasMailbox(dir: Directory, domain: string, local: string) {
    domain in dir.domains && (domain, local) in dir.accounts
  }

  lemma {:induction false} CanonIdempotent(s: string)
    ensures Canon(Canon(s)) == Canon(s)
  {
    var t := Strip(s);
    StripEnds(s);
    LowerEnds(t);
    LowerIdempotent(t);
    hide Lower, Strip, IsSpace;
    StripFixed(Lower(t));
  }

  /** The canonical form is the text between the outer white space, in lower case. */
  lemma {:induction false} CanonMeans(s: string) returns (before: string, core: string, after: string)
    ensures s == before + core + after && AllSpace(before) && AllSpace(after)
    ensures core != "" ==> !IsSpace(core[0]) && !IsSpace(core[|core| - 1])
    ensures |Canon(s)| == |core| && forall i :: 0 <= i < |core| ==> Canon(s)[i] == LowerChar(core[i])
  {
    core := Strip(s);
    before, after := StripMeans(s);
    StripEnds(s);
    hide IsSpace, Strip, AllSpace;
  }

  lemma {:induction false} LowerEnds(t: string)
    ensures |Lower(t)| == |t|
    ensures t != "" && !IsSpace(t[0]) && !IsSpace(t[|t| - 1]) ==> !IsSpace(Lower(t)[0]) && !IsSpace(Lower(t)[|t| - 1])
  {
  }

  lemma {:induction false} StripEnds(s: string)
    ensures Strip(s) != "" ==> !IsSpace(Strip(s)[0]) && !IsSpace(Strip(s)[|Strip(s)| - 1])
  {
    var l := StripLeft(s);
    if Strip(s) != "" { assert Strip(s)[0] == l[0]; }
  }

  lemma {:induction false} StripFixed(s: string)
    requires s != "" ==> !IsSpace(s[0]) && !IsSpace(s[|s| - 1])
    ensures Strip(s) == s
  {
  }

  /** Addresses an expansion returns are canonical and deliverable. */
  lemma {:induction false} ExpandedAreDeliverable(dir: Directory, destinations: seq<string>, root: string, a: string)
    requires Expand(dir, destinations, {root}, 0).Some? && a in Expand(dir, destinations, {root}, 0).value
    ensures Canon(a) == a && Deliverable(dir, a)
  {
    hide KindOf, Canon, Dedup, Expand, Visits;
    ExpandIsVisits(dir, destinations, {root}, 0);
    var met := Visits(dir, destinations, MAX_ALIAS_DEPTH);
    assert a in Dedup(met);
    assert a in met;
    var p := PathOfVisit(dir, destinations, MAX_ALIAS_DEPTH, a);
    PathCanonical(dir, destinations, p);
  }

  lemma {:induction false} PathCanonical(dir: Directory, destinations: seq<string>, p: seq<string>)
    requires Path(dir, destinations, p)
    ensures Canon(p[|p| - 1]) == p[|p| - 1]
    decreases |p|
  {
    hide KindOf, Canon;
    if |p| == 1 {
      var d :| d in destinations && Canon(d) == p[0];
      CanonIdempotent(d);
    } else {
      PathCanonical(dir, KindOf(dir, p[0]).destinations, p[1..]);
    }
  }

  /** No message goes round twice: routing an address that routing handed out is
      never another alias forward. */
  lemma {:induction false} ForwardsSettle(dir: Directory, recipient: string, a: string)
    requires a in RouteFor(dir, recipient).forwardTo
    ensures RouteFor(dir, a).disposition != AliasForward
  {
    hide RouteFor, Expand, Canon, KindOf;
    var destinations, root := ForwardSource(dir, recipient);
    ExpandedAreDeliverable(dir, destinations, root, a);
    DeliverableSettles(dir, a);
  }

  /** Whatever is forwarded to is the expansion of some alias's destinations. */
  lemma {:induction false} ForwardSource(dir: Directory, recipient: string)
    returns (destinations: seq<string>, root: string)
    requires RouteFor(dir, recipient).forwardTo != []
    ensures Expand(dir, destinations, {root}, 0) == Some(RouteFor(dir, recipient).forwardTo)
  {
    root := Canon(recipient);
    hide Expand, Canon, LocalLen, LookupAlias, ResolveDomain, FindAccount;
    var domain := ResolveDomain(dir, DomainPart(root)).value;
    destinations := LookupAlias(dir, domain, LocalPart(root)).value.destinations;
  }

  lemma {:induction false} DeliverableSettles(dir: Directory, a: string)
    requires Canon(a) == a && Deliverable(dir, a)
    ensures RouteFor(dir, a).disposition != AliasForward
  {
    hide Expand, Canon, LookupAlias, FindAccount, ResolveDomain, LocalLen;
  }

  /** With no account at the exact address, mail is still mirrored into a mailbox if and
      only if the address reaches a bridge with destinations and spells its domain
      otherwise than its name, and an account of that local part is there under the
      name. Unlike at the exact address, that account's settings are not looked at. */
  lemma {:induction false} LateBridgeIff(dir: Directory, recipient: string)
    requires var address := Canon(recipient);
             '@' in address && FindAccount(dir, address).None?
    ensures var address := Canon(recipient);
            var domain := ResolveDomain(dir, DomainPart(address));
            var local := LocalPart(address);
            RouteFor(dir, recipient).disposition == AliasBridge <==>
            (&& address !in dir.suppressed && local !in dir.replyTokens
             && domain.Some? && domain.value != DomainPart(address) && HasMailbox(dir, domain.value, local)
             && BridgeWithDestinations(dir, LookupAlias(dir, domain.value, local), address))
  {
    hide *;
    CanonIdempotent(recipient);
    UnownedRoute(dir, recipient);
    var address := Canon(recipient);
    var domain := ResolveDomain(dir, DomainPart(address));
    if domain.Some? {
      RouteAliasIff(dir, address, domain.value, LocalPart(address));
      if HasMailbox(dir, domain.value, LocalPart(address)) { MailboxIsAccount(dir, address, domain.value); }
    }
  }

  /** Without an account only an alias decides. */
  lemma {:induction false} UnownedRoute(dir: Directory, recipient: string)
    requires var address := Canon(recipient);
             '@' in address && FindAccount(dir, address).None?
    ensures var address := Canon(recipient);
            var domain := ResolveDomain(dir, DomainPart(address));
            RouteFor(dir, recipient).disposition == AliasBridge <==>
            (&& address !in dir.suppressed && LocalPart(address) !in dir.replyTokens && domain.Some?
             && RouteAlias(dir, address, domain.value, LocalPart(address)).disposition == AliasBridge)
  {
    hide Canon, LocalPart, DomainPart, FindAccount, ResolveDomain, RouteAlias, RouteAccount;
  }

  lemma {:induction false} RouteAliasIff(dir: Directory, address: string, domain: string, local: string)
    ensures RouteAlias(dir, address, domain, local).disposition == AliasBridge <==>
            HasMailbox(dir, domain, local) && BridgeWithDestinations(dir, LookupAlias(dir, domain, local), address)
  {
    hide Expand, LookupAlias, HasMailbox;
  }

  predicate BridgeWithDestinations(dir: Directory, alias: Option<Alias>, address: string) {
    && alias.Some? && alias.value.kind == Bridge
    && Expand(dir, alias.value.destinations, {address}, 0).Some?
    && Expand(dir, alias.value.destinations, {address}, 0).value != []
  }

  lemma {:induction false} MailboxIsAccount(dir: Directory, address: string, domain: string)
    requires '@' in address && Canon(address) == address && FindAccount(dir, address).None?
    requires HasMailbox(dir, domain, LocalPart(address))
    ensures domain != DomainPart(address)
  {
    hide Canon, LocalLen, RStripDots;
  }
}
