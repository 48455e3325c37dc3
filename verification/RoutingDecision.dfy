/** What the router decides, stated on the tables: one condition for each outcome. */
module RoutingDecision {
  import opened Text
  import opened Routing

  // ----- addresses and tables

  /** The first `@` of an address cuts it in two. */
  ghost predicate Splits(address: string, local: string, host: string) {
    '@' !in local && address == local + "@" + host
  }

  /** A host part names a domain: case, white space around it and dots after it aside,
      it is the domain's name, or an address in it. */
  ghost predicate Names(host: string, domain: string) {
    exists name, dots :: Dotted(Canon(host), name, dots) && IsOrIsIn(name, domain)
  }

  /** `s` is `name` and then all its trailing dots. */
  ghost predicate Dotted(s: string, name: string, dots: string) {
    s == name + dots && (forall c :: c in dots ==> c == '.') && (name == "" || name[|name| - 1] != '.')
  }

  ghost predicate IsOrIsIn(name: string, domain: string) {
    if '@' in name then exists user :: Splits(name, user, domain) else name == domain
  }

  /** What the tables hold for an address: its local part, the domain it is in, the
      account at exactly this address, and the alias of its local part there. */
  datatype Found = Found(local: string, domain: Option<string>, account: Option<Account>, alias: Option<Alias>)

  ghost predicate DomainFound(dir: Directory, host: string, domain: Option<string>) {
    match domain
    case Some(name) => name in dir.domains && Names(host, name)
    case None => forall name :: name in dir.domains ==> !Names(host, name)
  }

  ghost predicate Finds(dir: Directory, address: string, f: Found) {
    exists host ::
      && Splits(address, f.local, host) && DomainFound(dir, host, f.domain)
      && f.account == (if host in dir.domains && (host, f.local) in dir.accounts then Some(dir.accounts[(host, f.local)]) else None)
      && f.alias == (if f.domain.Some? && (f.domain.value, f.local) in dir.aliases then Some(dir.aliases[(f.domain.value, f.local)])
                     else None)
  }

  lemma {:induction false} SplitIff(address: string, local: string, host: string)
    ensures Splits(address, local, host) <==> '@' in address && local == LocalPart(address) && host == DomainPart(address)
  {
    if Splits(address, local, host) {
      LocalLenIs(address, |local|);
      assert address[..|local|] == local && address[|local| + 1..] == host;
    }
    if '@' in address {
      var n := LocalLen(address);
      assert address == address[..n] + "@" + address[n + 1..];
    }
  }

  lemma {:induction false} LocalLenIs(s: string, n: nat)
    requires n < |s| && s[n] == '@' && '@' !in s[..n]
    ensures LocalLen(s) == n
  {
    if n > 0 {
      assert s[..n][0] == s[0] && s[..n][1..] == s[1..][..n - 1];
      LocalLenIs(s[1..], n - 1);
    }
  }

  lemma {:induction false} TrailingDots(s: string)
    ensures RStripDots(s) <= s && Dotted(s, RStripDots(s), s[|RStripDots(s)|..])
  {
    if s != "" && s[|s| - 1] == '.' {
      TrailingDots(s[..|s| - 1]);
      var r := RStripDots(s);
      assert s[|r|..] == s[..|s| - 1][|r|..] + ".";
    }
  }

  lemma {:induction false} StripsTo(s: string, name: string, dots: string)
    requires Dotted(s, name, dots)
    ensures RStripDots(s) == name
  {
    if dots == "" {
      assert s == name;
    } else {
      assert dots[|dots| - 1] in dots;
      var fewer := dots[..|dots| - 1];
      assert s[..|s| - 1] == name + fewer && forall c :: c in fewer ==> c in dots;
      StripsTo(s[..|s| - 1], name, fewer);
    }
  }

  /** The domain a host part names. */
  lemma {:induction false} NamesIff(host: string, domain: string)
    ensures Names(host, domain) <==> IsOrIsIn(RStripDots(Canon(host)), domain)
  {
    hide Canon, RStripDots, IsOrIsIn, Dotted;
    var s := Canon(host);
    TrailingDots(s);
    if Names(host, domain) {
      var other, more :| Dotted(s, other, more) && IsOrIsIn(other, domain);
      StripsTo(s, other, more);
    }
  }

  lemma {:induction false} IsOrIsInIff(name: string, domain: string)
    ensures IsOrIsIn(name, domain) <==> domain == if '@' in name then DomainPart(name) else name
  {
    hide Splits, LocalLen;
    if '@' in name {
      SplitIff(name, LocalPart(name), DomainPart(name));
      if IsOrIsIn(name, domain) {
        var user :| Splits(name, user, domain);
        SplitIff(name, user, domain);
      }
    }
  }

  lemma {:induction false} DomainFoundIff(dir: Directory, host: string, domain: Option<string>)
    ensures DomainFound(dir, host, domain) <==> domain == ResolveDomain(dir, host)
  {
    var bare := RStripDots(Canon(host));
    hide RStripDots, Names, Canon, DomainPart, IsOrIsIn;
    forall name ensures Names(host, name) <==> name == if '@' in bare then DomainPart(bare) else bare {
      NamesIff(host, name);
      IsOrIsInIff(bare, name);
    }
  }

  lemma {:induction false} LowerFixed(address: string, local: string, host: string)
    requires Canon(address) == address && Splits(address, local, host)
    ensures Lower(local) == local
  {
    assert Lower(Strip(address)) == address;
    forall i | 0 <= i < |local| ensures LowerChar(local[i]) == local[i] {
      assert address[i] == local[i] && LowerChar(Strip(address)[i]) == address[i];
    }
  }

  lemma {:induction false} AccountFound(dir: Directory, address: string, local: string, host: string)
    requires Canon(address) == address && Splits(address, local, host)
    ensures FindAccount(dir, address) ==
            if host in dir.domains && (host, local) in dir.accounts then Some(dir.accounts[(host, local)]) else None
  {
    SplitIff(address, local, host);
    hide Canon, LocalLen, Splits;
  }

  /** What the router's own lookups give. */
  function LookedUp(dir: Directory, address: string): Found
    requires '@' in address
  {
    var local, domain := LocalPart(address), ResolveDomain(dir, DomainPart(address));
    Found(local, domain, FindAccount(dir, address), if domain.Some? then LookupAlias(dir, domain.value, local) else None)
  }

  lemma {:induction false} FoundAlias(dir: Directory, domain: string, local: string)
    requires Lower(local) == local
    ensures LookupAlias(dir, domain, local) ==
            if (domain, local) in dir.aliases then Some(dir.aliases[(domain, local)]) else None
  {
    hide Lower;
  }

  lemma {:induction false} FindsAt(dir: Directory, address: string, host: string, f: Found)
    requires '@' in address && Splits(address, LocalPart(address), host)
    requires forall local, other :: Splits(address, local, other) ==> local == LocalPart(address) && other == host
    requires FindAccount(dir, address) ==
             if host in dir.domains && (host, LocalPart(address)) in dir.accounts
             then Some(dir.accounts[(host, LocalPart(address))]) else None
    requires forall domain :: LookupAlias(dir, domain, LocalPart(address)) ==
               if (domain, LocalPart(address)) in dir.aliases then Some(dir.aliases[(domain, LocalPart(address))]) else None
    requires DomainFound(dir, host, f.domain) <==> f.domain == ResolveDomain(dir, host)
    requires host == DomainPart(address)
    ensures Finds(dir, address, f) <==> f == LookedUp(dir, address)
  {
    hide Splits, DomainFound, LocalPart, DomainPart, ResolveDomain, FindAccount, LookupAlias;
  }

  /** They give what the tables hold, and every address is found as one thing. */
  lemma {:induction false} FindsIff(dir: Directory, recipient: string, f: Found)
    requires '@' in Canon(recipient)
    ensures Finds(dir, Canon(recipient), f) <==> f == LookedUp(dir, Canon(recipient))
  {
    hide *;
    CanonIdempotent(recipient);
    var address := Canon(recipient);
    var local, host := LocalPart(address), DomainPart(address);
    SplitIff(address, local, host);
    forall l, h | Splits(address, l, h) ensures l == local && h == host { SplitIff(address, l, h); }
    LowerFixed(address, local, host);
    AccountFound(dir, address, local, host);
    forall domain ensures LookupAlias(dir, domain, local) ==
                          if (domain, local) in dir.aliases then Some(dir.aliases[(domain, local)]) else None {
      FoundAlias(dir, domain, local);
    }
    DomainFoundIff(dir, host, f.domain);
    FindsAt(dir, address, host, f);
  }

  // ----- what an address is to the expansion

  /** External is what no domain here is named by; an account makes a mailbox; otherwise
      an alias leads on, and without one the address is missing. */
  lemma {:induction false} KindIff(dir: Directory, destination: string, f: Found)
    requires '@' in Canon(destination) && Finds(dir, Canon(destination), f)
    ensures var kind := KindOf(dir, Canon(destination));
            && (kind == External <==> f.domain == None)
            && (kind == Mailbox <==> f.domain != None && f.account != None)
            && (forall to :: kind == Alias_(to) <==> f.domain != None && f.account == None && f.alias.Some? && f.alias.value.destinations == to)
            && (kind == Missing <==> f.domain != None && f.account == None && f.alias == None)
  {
    FindsIff(dir, destination, f);
    hide Canon, LocalPart, DomainPart, Finds, ResolveDomain, FindAccount, LookupAlias;
  }

  // ----- the decision

  /** Where the recipient's alias leads: None is a loop. */
  function LeadsTo(dir: Directory, address: string, f: Found): Option<seq<string>>
    requires f.alias.Some?
  {
    Expand(dir, f.alias.value.destinations, {address}, 0)
  }

  ghost predicate Loops(dir: Directory, address: string, f: Found) { f.alias.Some? && LeadsTo(dir, address, f) == None }

  ghost predicate Leads(dir: Directory, address: string, f: Found) {
    f.alias.Some? && LeadsTo(dir, address, f).Some? && LeadsTo(dir, address, f).value != []
  }

  ghost predicate IsBridge(f: Found) { f.alias.Some? && f.alias.value.kind == Bridge }

  /** In a domain here, not suppressed and no reply token. */
  ghost predicate Reaches(dir: Directory, address: string, f: Found) {
    address !in dir.suppressed && f.domain.Some? && f.local !in dir.replyTokens
  }

  ghost predicate Receives(f: Found) { f.account.Some? && !f.account.value.disabled && f.account.value.canReceive }

  /** An account of the local part under the domain's name. */
  ghost predicate NameOwned(dir: Directory, f: Found) { f.domain.Some? && (f.domain.value, f.local) in dir.accounts }

  lemma {:induction false} NoAddress(dir: Directory, recipient: string)
    requires '@' !in Canon(recipient)
    ensures RouteFor(dir, recipient) == Route(Reject, Some(NoSuchMailbox), None, [])
  {
  }

  /** The decision from what is found. */
  lemma {:induction false} Decided(dir: Directory, recipient: string, f: Found)
    requires '@' in Canon(recipient) && Finds(dir, Canon(recipient), f)
    ensures var address := Canon(recipient);
            RouteFor(dir, recipient) ==
              if address in dir.suppressed then Refuse(Suppressed)
              else if f.domain.None? then Refuse(NotLocalDomain)
              else if f.local in dir.replyTokens then Route(Reply, None, None, [])
              else if f.account.Some? then RouteAccount(dir, address, f.domain.value, f.local, f.account.value)
              else RouteAlias(dir, address, f.domain.value, f.local)
    ensures f.domain.Some? ==> LookupAlias(dir, f.domain.value, f.local) == f.alias
    ensures f.domain.Some? ==> f.domain.value in dir.domains
  {
    FindsIff(dir, recipient, f);
    hide Canon, LocalPart, DomainPart, Finds, FindAccount, LookupAlias, RouteAccount, RouteAlias;
    if f.domain.Some? { Resolved(dir, DomainPart(Canon(recipient))); }
    hide ResolveDomain;
  }

  lemma {:induction false} Resolved(dir: Directory, host: string)
    ensures ResolveDomain(dir, host).Some? ==> ResolveDomain(dir, host).value in dir.domains
  {
    hide RStripDots, Lower, Strip;
  }

  /** An address with an account. */
  lemma {:induction false} WithAccount(dir: Directory, address: string, f: Found)
    requires f.domain.Some? && f.account.Some? && LookupAlias(dir, f.domain.value, f.local) == f.alias
    ensures var r := RouteAccount(dir, address, f.domain.value, f.local, f.account.value);
            && (r == Refuse(AccountDisabled) <==> f.account.value.disabled)
            && (r == Refuse(ReceivingBlocked) <==> !f.account.value.disabled && !f.account.value.canReceive)
            && (r == Refuse(AliasLoop) <==> Receives(f) && IsBridge(f) && Loops(dir, address, f))
            && (r == Route(Local, None, Some(address), []) <==> Receives(f) && !(IsBridge(f) && (Loops(dir, address, f) || Leads(dir, address, f))))
            && (r.disposition == AliasBridge <==> Receives(f) && IsBridge(f) && Leads(dir, address, f))
            && (r.disposition == AliasBridge ==> Some(r.forwardTo) == LeadsTo(dir, address, f) && r == Route(AliasBridge, None, Some(address), r.forwardTo))
            && (r.disposition in {Local, AliasBridge} || r in {Refuse(AccountDisabled), Refuse(ReceivingBlocked), Refuse(AliasLoop)})
            && (r.disposition == Local ==> r == Route(Local, None, Some(address), []))
  {
    hide Expand, LookupAlias;
  }

  /** An address without one. */
  lemma {:induction false} WithoutAccount(dir: Directory, address: string, f: Found)
    requires f.domain.Some? && f.account.None? && LookupAlias(dir, f.domain.value, f.local) == f.alias
    requires f.domain.value in dir.domains
    ensures var r := RouteAlias(dir, address, f.domain.value, f.local);
            && (r == Refuse(AliasLoop) <==> Loops(dir, address, f))
            && (r == Refuse(NoSuchMailbox) <==> !Loops(dir, address, f) && !Leads(dir, address, f))
            && (r.disposition == AliasBridge <==> IsBridge(f) && Leads(dir, address, f) && NameOwned(dir, f))
            && (r.disposition == AliasForward <==> Leads(dir, address, f) && !(IsBridge(f) && NameOwned(dir, f)))
            && (r.disposition == AliasBridge ==>
                  f.alias.Some? && Some(r.forwardTo) == LeadsTo(dir, address, f)
                  && r == Route(AliasBridge, None, Some(f.local + "@" + f.domain.value), r.forwardTo))
            && (r.disposition == AliasForward ==>
                  f.alias.Some? && Some(r.forwardTo) == LeadsTo(dir, address, f) && r == Route(AliasForward, None, None, r.forwardTo))
            && (r.disposition in {AliasForward, AliasBridge} || r in {Refuse(AliasLoop), Refuse(NoSuchMailbox)})
  {
    hide Expand, LookupAlias;
  }

  ghost predicate Given(dir: Directory, recipient: string, f: Found) {
    '@' in Canon(recipient) && Finds(dir, Canon(recipient), f)
  }

  lemma {:induction false} Cases(dir: Directory, recipient: string, f: Found)
    requires Given(dir, recipient, f)
    ensures var address, r := Canon(recipient), RouteFor(dir, recipient);
            && (address in dir.suppressed ==> r == Refuse(Suppressed))
            && (address !in dir.suppressed && f.domain.None? ==> r == Refuse(NotLocalDomain))
            && (address !in dir.suppressed && f.domain.Some? && f.local in dir.replyTokens ==> r == Route(Reply, None, None, []))
            && (Reaches(dir, address, f) && f.account.Some? ==>
                  r == RouteAccount(dir, address, f.domain.value, f.local, f.account.value))
            && (Reaches(dir, address, f) && f.account.None? ==> r == RouteAlias(dir, address, f.domain.value, f.local))
            && (f.domain.Some? ==> LookupAlias(dir, f.domain.value, f.local) == f.alias && f.domain.value in dir.domains)
  {
    Decided(dir, recipient, f);
    hide Canon, Finds, RouteFor, RouteAccount, RouteAlias, LookupAlias;
  }

  /** One condition for each reason to refuse; an earlier one hides the later. */
  lemma {:induction false} RefusedIff(dir: Directory, recipient: string, f: Found)
    requires Given(dir, recipient, f)
    ensures var address, reason := Canon(recipient), RouteFor(dir, recipient).reason;
            && (reason == Some(Suppressed) <==> address in dir.suppressed)
            && (reason == Some(NotLocalDomain) <==> address !in dir.suppressed && f.domain == None)
            && (reason == Some(AccountDisabled) <==> Reaches(dir, address, f) && f.account.Some? && f.account.value.disabled)
            && (reason == Some(ReceivingBlocked) <==>
                  Reaches(dir, address, f) && f.account.Some? && !f.account.value.disabled && !f.account.value.canReceive)
            && (reason == Some(AliasLoop) <==>
                  Reaches(dir, address, f) && Loops(dir, address, f) && (f.account.None? || (Receives(f) && IsBridge(f))))
            && (reason == Some(NoSuchMailbox) <==>
                  Reaches(dir, address, f) && f.account.None? && !Loops(dir, address, f) && !Leads(dir, address, f))
    ensures RouteFor(dir, recipient).reason.Some? <==> RouteFor(dir, recipient).disposition == Reject
  {
    var address := Canon(recipient);
    Cases(dir, recipient, f);
    if Reaches(dir, address, f) && f.account.Some? { WithAccount(dir, address, f); }
    if Reaches(dir, address, f) && f.account.None? { WithoutAccount(dir, address, f); }
    hide Canon, Given, RouteFor, RouteAccount, RouteAlias, Expand, LookupAlias, Loops, Leads, LeadsTo, IsBridge, NameOwned;
  }

  /** One condition for each way to take the message. */
  lemma {:induction false} TakenIff(dir: Directory, recipient: string, f: Found)
    requires Given(dir, recipient, f)
    ensures var address, how := Canon(recipient), RouteFor(dir, recipient).disposition;
            && (how == Reply <==> address !in dir.suppressed && f.domain.Some? && f.local in dir.replyTokens)
            && (how == Local <==>
                  Reaches(dir, address, f) && Receives(f)
                  && !(IsBridge(f) && (Loops(dir, address, f) || Leads(dir, address, f))))
            && (how == AliasBridge <==>
                  Reaches(dir, address, f) && IsBridge(f) && Leads(dir, address, f)
                  && (Receives(f) || (f.account.None? && NameOwned(dir, f))))
            && (how == AliasForward <==>
                  Reaches(dir, address, f) && f.account.None? && Leads(dir, address, f) && !(IsBridge(f) && NameOwned(dir, f)))
  {
    var address := Canon(recipient);
    Cases(dir, recipient, f);
    if Reaches(dir, address, f) && f.account.Some? { WithAccount(dir, address, f); }
    if Reaches(dir, address, f) && f.account.None? { WithoutAccount(dir, address, f); }
    hide Canon, Given, RouteFor, RouteAccount, RouteAlias, Expand, LookupAlias, Loops, Leads, LeadsTo, IsBridge, NameOwned;
  }

  /** What a taken message carries: the canonical address as its mailbox, or the local
      part at the domain's own name on a late bridge, and the expansion exactly when it
      is forwarded. */
  lemma {:induction false} CarriedIff(dir: Directory, recipient: string, f: Found)
    requires Given(dir, recipient, f)
    ensures var address, r := Canon(recipient), RouteFor(dir, recipient);
            && (r.disposition == Local ==> r.mailbox == Some(address))
            && (r.disposition == AliasBridge && f.account.Some? ==> r.mailbox == Some(address))
            && (r.disposition == AliasBridge && f.account.None? ==>
                  f.domain.Some? && r.mailbox == Some(f.local + "@" + f.domain.value))
            && (r.disposition !in {Local, AliasBridge} ==> r.mailbox == None)
            && (r.disposition in {AliasForward, AliasBridge} ==> f.alias.Some? && LeadsTo(dir, address, f) == Some(r.forwardTo))
            && (r.disposition !in {AliasForward, AliasBridge} ==> r.forwardTo == [])
  {
    var address := Canon(recipient);
    Cases(dir, recipient, f);
    if Reaches(dir, address, f) && f.account.Some? { WithAccount(dir, address, f); }
    if Reaches(dir, address, f) && f.account.None? { WithoutAccount(dir, address, f); }
    hide Canon, Given, RouteFor, RouteAccount, RouteAlias, Expand, LookupAlias, Loops, Leads, LeadsTo, NameOwned;
  }
}
