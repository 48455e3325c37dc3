/** The message and conversation lists of one folder
    (src/lightr/dovecot/mailbox.py). */
module Mailbox {
  import opened Threads

  datatype Summary = Summary(uid: nat, flags: set<string>)

  datatype Thread = Thread(uids: seq<nat>, messages: seq<Summary>)

  // ----- sorting

  ghost predicate Ascending(uids: seq<nat>) { forall i, j :: 0 <= i < j < |uids| ==> uids[i] <= uids[j] }

  function Insert(uid: nat, uids: seq<nat>): (r: seq<nat>)
    ensures r != []
  {
    if uids == [] || uid <= uids[0] then [uid] + uids else [uids[0]] + Insert(uid, uids[1..])
  }

  /** `sorted(group)` */
  function Sorted(uids: seq<nat>): (r: seq<nat>)
    ensures uids != [] ==> r != []
  {
    if uids == [] then [] else Insert(uids[0], Sorted(uids[1..]))
  }

  lemma {:induction false} InsertKeeps(uid: nat, uids: seq<nat>)
    ensures multiset(Insert(uid, uids)) == multiset(uids) + multiset{uid}
  {
    if uids != [] && uid > uids[0] {
      InsertKeeps(uid, uids[1..]);
      assert uids == [uids[0]] + uids[1..];
    }
  }

  lemma {:induction false} ConsAscending(first: nat, rest: seq<nat>)
    requires Ascending(rest) && (rest == [] || first <= rest[0])
    ensures Ascending([first] + rest)
  {
  }

  lemma {:induction false} InsertSorts(uid: nat, uids: seq<nat>)
    requires Ascending(uids)
    ensures Ascending(Insert(uid, uids))
    ensures Insert(uid, uids)[0] == uid || (uids != [] && Insert(uid, uids)[0] == uids[0])
  {
    if uids == [] || uid <= uids[0] {
      ConsAscending(uid, uids);
    } else {
      assert Ascending(uids[1..]);
      InsertSorts(uid, uids[1..]);
      assert uids[1..] != [] ==> uids[0] <= uids[1];
      hide Ascending;
      ConsAscending(uids[0], Insert(uid, uids[1..]));
    }
  }

  lemma {:induction false} SortedSorts(uids: seq<nat>)
    ensures Ascending(Sorted(uids)) && multiset(Sorted(uids)) == multiset(uids)
  {
    if uids != [] {
      SortedSorts(uids[1..]);
      InsertSorts(uids[0], Sorted(uids[1..]));
      InsertKeeps(uids[0], Sorted(uids[1..]));
      assert uids == [uids[0]] + uids[1..];
    }
  }

  /** A conversation that has messages, oldest first. */
  type Group = g: seq<nat> | g != [] witness [0]

  function Newest(g: Group): nat { g[|g| - 1] }

  /** Conversations by newest message, descending; equal keys keep their order. */
  function Place(g: Group, groups: seq<Group>): seq<Group> {
    if groups == [] || Newest(g) >= Newest(groups[0]) then [g] + groups
    else [groups[0]] + Place(g, groups[1..])
  }

  function Ordered(groups: seq<seq<nat>>): seq<Group> {
    if groups == [] then []
    else if groups[0] == [] then Ordered(groups[1..])
    else Place(Sorted(groups[0]), Ordered(groups[1..]))
  }

  ghost predicate Descending(groups: seq<Group>) {
    forall i, j :: 0 <= i < j < |groups| ==> Newest(groups[i]) >= Newest(groups[j])
  }

  lemma {:induction false} PlaceKeeps(g: Group, groups: seq<Group>)
    ensures multiset(Place(g, groups)) == multiset(groups) + multiset{g}
  {
    if groups != [] && Newest(g) < Newest(groups[0]) {
      PlaceKeeps(g, groups[1..]);
      assert groups == [groups[0]] + groups[1..];
    }
  }

  lemma {:induction false} ConsDescending(first: Group, rest: seq<Group>)
    requires Descending(rest) && (rest == [] || Newest(first) >= Newest(rest[0]))
    ensures Descending([first] + rest)
  {
  }

  lemma {:induction false} TailDescending(groups: seq<Group>)
    requires Descending(groups) && groups != []
    ensures Descending(groups[1..]) && (|groups| > 1 ==> Newest(groups[0]) >= Newest(groups[1]))
  {
  }

  lemma {:induction false} PlaceOrders(g: Group, groups: seq<Group>)
    requires Descending(groups)
    ensures Descending(Place(g, groups)) && Place(g, groups) != []
    ensures Place(g, groups)[0] == g || (groups != [] && Place(g, groups)[0] == groups[0])
  {
    hide Descending, Newest;
    if groups == [] || Newest(g) >= Newest(groups[0]) {
      ConsDescending(g, groups);
    } else {
      TailDescending(groups);
      PlaceOrders(g, groups[1..]);
      ConsDescending(groups[0], Place(g, groups[1..]));
    }
  }

  /** The conversations with messages, each sorted. */
  function SortedGroups(groups: seq<seq<nat>>): seq<Group> {
    if groups == [] then []
    else (if groups[0] == [] then [] else [Sorted(groups[0])]) + SortedGroups(groups[1..])
  }

  /** The list shown is the conversations, each whole and once, newest first. */
  lemma {:induction false} OrderedExact(groups: seq<seq<nat>>)
    ensures Descending(Ordered(groups)) && multiset(Ordered(groups)) == multiset(SortedGroups(groups))
  {
    if groups != [] {
      OrderedExact(groups[1..]);
      if groups[0] != [] {
        PlaceOrders(Sorted(groups[0]), Ordered(groups[1..]));
        PlaceKeeps(Sorted(groups[0]), Ordered(groups[1..]));
        hide Place, Descending, Sorted;
      }
    }
  }

  function WithNewest(groups: seq<Group>, n: nat): seq<Group> {
    if groups == [] then []
    else (if Newest(groups[0]) == n then [groups[0]] else []) + WithNewest(groups[1..], n)
  }

  lemma {:induction false} NoneNewer(groups: seq<Group>, n: nat)
    requires Descending(groups) && (groups == [] || Newest(groups[0]) < n)
    ensures WithNewest(groups, n) == []
  {
    if groups != [] {
      TailDescending(groups);
      NoneNewer(groups[1..], n);
    }
  }

  lemma {:induction false} PlaceStable(g: Group, groups: seq<Group>, n: nat)
    requires Descending(groups)
    ensures WithNewest(Place(g, groups), n) == WithNewest([g] + groups, n)
  {
    assert ([g] + groups)[1..] == groups;
    if groups != [] && Newest(g) < Newest(groups[0]) {
      TailDescending(groups);
      PlaceStable(g, groups[1..], n);
      assert ([g] + groups[1..])[1..] == groups[1..];
      var r := Place(g, groups[1..]);
      assert ([groups[0]] + r)[1..] == r;
    }
  }

  /** Conversations with the same newest message stay in the order they came in. */
  lemma {:induction false} OrderedStable(groups: seq<seq<nat>>, n: nat)
    ensures WithNewest(Ordered(groups), n) == WithNewest(SortedGroups(groups), n)
  {
    if groups != [] {
      OrderedStable(groups[1..], n);
      OrderedExact(groups[1..]);
      var rest := SortedGroups(groups[1..]);
      if groups[0] != [] {
        var g: Group := Sorted(groups[0]);
        var placed := Ordered(groups[1..]);
        PlaceStable(g, placed, n);
        hide Descending, Sorted, Place;
        assert ([g] + placed)[1..] == placed;
        assert SortedGroups(groups) == [g] + rest && ([g] + rest)[1..] == rest;
      } else {
        hide Sorted;
        assert [] + rest == rest;
      }
    }
  }

  // ----- one page

  /** `items[offset : offset + limit]` */
  function Window<T>(items: seq<T>, offset: nat, limit: nat): (r: seq<T>)
    ensures |r| <= limit
  {
    if offset >= |items| then []
    else if offset + limit >= |items| then items[offset..]
    else items[offset..offset + limit]
  }

  /** `{summary.uid: summary for summary in summaries}`: the last of several wins. */
  function ByUid(summaries: seq<Summary>): (r: map<nat, Summary>)
    ensures forall uid :: uid in r ==> r[uid] in summaries && r[uid].uid == uid
    ensures forall s :: s in summaries ==> s.uid in r
  {
    if summaries == [] then map[]
    else
      var last := summaries[|summaries| - 1];
      ByUid(summaries[..|summaries| - 1])[last.uid := last]
  }

  /** The fetched messages of a conversation; one that has vanished is dropped. */
  function Found(group: seq<nat>, known: map<nat, Summary>): seq<Summary> {
    if group == [] then []
    else (if group[0] in known then [known[group[0]]] else []) + Found(group[1..], known)
  }

  function Uids(messages: seq<Summary>): (r: seq<nat>)
    ensures |r| == |messages|
  {
    seq(|messages|, i requires 0 <= i < |messages| => messages[i].uid)
  }

  function Shown(window: seq<Group>, known: map<nat, Summary>): seq<Thread> {
    if window == [] then []
    else
      var messages := Found(window[|window| - 1], known);
      Shown(window[..|window| - 1], known) + (if messages == [] then [] else [Thread(Uids(messages), messages)])
  }

  /** `Mailbox.threads`: `thread` is the THREAD answer, `fetch` what a FETCH of the
      given UIDs finds. */
  method ListThreads(thread: seq<seq<nat>>, limit: nat, offset: nat, fetch: seq<nat> -> seq<Summary>)
    returns (threads: seq<Thread>)
    ensures threads == Page(thread, limit, offset, fetch)
  {
    var window := Window(Ordered(thread), offset, limit);
    if window == [] { return []; }
    var known := ByUid(fetch(Flatten(window)));
    threads := [];
    for n := 0 to |window|
      invariant threads == Shown(window[..n], known)
    {
      assert window[..n + 1][..n] == window[..n];
      var messages := Found(window[n], known);
      if messages != [] {
        threads := threads + [Thread(Uids(messages), messages)];
      }
    }
    assert window[..|window|] == window;
  }

  function Page(thread: seq<seq<nat>>, limit: nat, offset: nat, fetch: seq<nat> -> seq<Summary>): seq<Thread> {
    var window := Window(Ordered(thread), offset, limit);
    Shown(window, ByUid(fetch(Flatten(window))))
  }

  /** Each conversation shown has messages, one for each of its UIDs and in their order,
      and each is what FETCH answered for the page. */
  ghost predicate ShowsFetched(threads: seq<Thread>, summaries: seq<Summary>) {
    forall t :: t in threads ==>
      && t.messages != [] && |t.uids| == |t.messages|
      && forall i :: 0 <= i < |t.messages| ==> t.messages[i].uid == t.uids[i] && t.messages[i] in summaries
  }

  lemma {:induction false} FoundFetched(group: seq<nat>, summaries: seq<Summary>)
    ensures forall m :: m in Found(group, ByUid(summaries)) ==> m in summaries
  {
    if group != [] { FoundFetched(group[1..], summaries); }
  }

  lemma {:induction false} ShownFetched(window: seq<Group>, summaries: seq<Summary>)
    ensures ShowsFetched(Shown(window, ByUid(summaries)), summaries)
  {
    hide ByUid, Found;
    if window != [] {
      ShownFetched(window[..|window| - 1], summaries);
      FoundFetched(window[|window| - 1], summaries);
    }
  }

  lemma {:induction false} PageShowsFetched(thread: seq<seq<nat>>, limit: nat, offset: nat, fetch: seq<nat> -> seq<Summary>)
    ensures ShowsFetched(Page(thread, limit, offset, fetch), fetch(Flatten(Window(Ordered(thread), offset, limit))))
  {
    ShownFetched(Window(Ordered(thread), offset, limit), fetch(Flatten(Window(Ordered(thread), offset, limit))));
  }

  // ----- all pages

  /** The pages from `offset` on, one after another. */
  function Pages(thread: seq<seq<nat>>, limit: nat, offset: nat, fetch: seq<nat> -> seq<Summary>): seq<Thread>
    requires limit > 0
    decreases |Ordered(thread)| - offset
  {
    if offset >= |Ordered(thread)| then []
    else Page(thread, limit, offset, fetch) + Pages(thread, limit, offset + limit, fetch)
  }

  /** A FETCH answers with just the requested messages that are still there. */
  ghost predicate Fetches(fetch: seq<nat> -> seq<Summary>, present: set<nat>) {
    forall uids: seq<nat> :: AnswersFetch(fetch(uids), uids, present)
  }

  ghost predicate AnswersFetch(summaries: seq<Summary>, uids: seq<nat>, present: set<nat>) {
    && (forall s :: s in summaries ==> s.uid in uids && s.uid in present)
    && (forall uid :: uid in uids && uid in present ==> exists s :: s in summaries && s.uid == uid)
  }

  function Remaining(group: seq<nat>, present: set<nat>): seq<nat> {
    if group == [] then []
    else (if group[0] in present then [group[0]] else []) + Remaining(group[1..], present)
  }

  /** Conversations without their vanished messages; one that lost them all is gone. */
  function Surviving(groups: seq<Group>, present: set<nat>): seq<seq<nat>> {
    if groups == [] then []
    else
      var left := Remaining(groups[|groups| - 1], present);
      Surviving(groups[..|groups| - 1], present) + (if left == [] then [] else [left])
  }

  function ThreadUids(threads: seq<Thread>): (r: seq<seq<nat>>)
    ensures |r| == |threads|
  {
    seq(|threads|, i requires 0 <= i < |threads| => threads[i].uids)
  }

  lemma {:induction false} FoundRemains(group: seq<nat>, known: map<nat, Summary>, present: set<nat>)
    requires forall uid :: uid in known ==> known[uid].uid == uid
    requires forall uid :: uid in group ==> (uid in known <==> uid in present)
    ensures Uids(Found(group, known)) == Remaining(group, present)
  {
    if group != [] { FoundRemains(group[1..], known, present); }
  }

  lemma {:induction false} ShownSurvive(window: seq<Group>, known: map<nat, Summary>, present: set<nat>)
    requires forall uid :: uid in known ==> known[uid].uid == uid
    requires forall uid :: uid in Flatten(window) ==> (uid in known <==> uid in present)
    ensures ThreadUids(Shown(window, known)) == Surviving(window, present)
  {
    if window != [] {
      var init, last := window[..|window| - 1], window[|window| - 1];
      ShownSurvive(init, known, present);
      FoundRemains(last, known, present);
    }
  }

  lemma {:induction false} PageSurvives(thread: seq<seq<nat>>, limit: nat, offset: nat, fetch: seq<nat> -> seq<Summary>, present: set<nat>)
    requires Fetches(fetch, present)
    ensures ThreadUids(Page(thread, limit, offset, fetch)) == Surviving(Window(Ordered(thread), offset, limit), present)
  {
    var window := Window(Ordered(thread), offset, limit);
    var uids := Flatten(window);
    assert AnswersFetch(fetch(uids), uids, present);
    ShownSurvive(window, ByUid(fetch(uids)), present);
  }

  lemma {:induction false} SurvivingConcat(a: seq<Group>, b: seq<Group>, present: set<nat>)
    ensures Surviving(a + b, present) == Surviving(a, present) + Surviving(b, present)
  {
    if b == [] {
      assert a + b == a;
    } else {
      assert (a + b)[..|a + b| - 1] == a + b[..|b| - 1];
      SurvivingConcat(a, b[..|b| - 1], present);
    }
  }

  lemma {:induction false} PagesFrom(thread: seq<seq<nat>>, limit: nat, offset: nat, fetch: seq<nat> -> seq<Summary>, present: set<nat>)
    requires limit > 0 && Fetches(fetch, present) && offset <= |Ordered(thread)|
    ensures ThreadUids(Pages(thread, limit, offset, fetch)) == Surviving(Ordered(thread)[offset..], present)
    decreases |Ordered(thread)| - offset
  {
    hide Ordered, Page, Fetches;
    var all := Ordered(thread);
    if offset < |all| {
      PageSurvives(thread, limit, offset, fetch, present);
      var next := if offset + limit <= |all| then offset + limit else |all|;
      assert all[offset..] == Window(all, offset, limit) + all[next..];
      SurvivingConcat(Window(all, offset, limit), all[next..], present);
      if offset + limit <= |all| {
        PagesFrom(thread, limit, next, fetch, present);
      } else {
        assert all[next..] == [];
      }
    } else {
      assert all[offset..] == [];
    }
  }

  lemma {:induction false} RemainingWhole(group: seq<nat>, present: set<nat>)
    requires forall uid :: uid in group ==> uid in present
    ensures Remaining(group, present) == group
  {
    if group != [] { RemainingWhole(group[1..], present); }
  }

  lemma {:induction false} SurvivingWhole(groups: seq<Group>, present: set<nat>)
    requires forall g, uid :: g in groups && uid in g ==> uid in present
    ensures Surviving(groups, present) == groups
  {
    if groups != [] {
      var init, last := groups[..|groups| - 1], groups[|groups| - 1];
      assert last in groups && forall g :: g in init ==> g in groups;
      RemainingWhole(last, present);
      SurvivingWhole(init, present);
      hide Remaining;
      assert groups == init + [last];
    }
  }

  /** Reading page after page, of any size, lists every conversation once, never split
      over two pages, by newest message descending: the pages together are the whole
      ordered list less vanished messages, and the whole list when none vanished. */
  lemma {:induction false} PagesListEachOnce(thread: seq<seq<nat>>, limit: nat, fetch: seq<nat> -> seq<Summary>, present: set<nat>)
    requires limit > 0 && Fetches(fetch, present)
    ensures ThreadUids(Pages(thread, limit, 0, fetch)) == Surviving(Ordered(thread), present)
    ensures (forall g, uid :: g in Ordered(thread) && uid in g ==> uid in present)
      ==> ThreadUids(Pages(thread, limit, 0, fetch)) == Ordered(thread)
    ensures Descending(Ordered(thread)) && multiset(Ordered(thread)) == multiset(SortedGroups(thread))
  {
    PagesFrom(thread, limit, 0, fetch, present);
    assert Ordered(thread)[0..] == Ordered(thread);
    OrderedExact(thread);
    hide Ordered, Pages, Fetches;
    if forall g, uid :: g in Ordered(thread) && uid in g ==> uid in present { SurvivingWhole(Ordered(thread), present); }
  }

  /** From the wire to the pages: whatever commentary a response holds, the forests it
      carries are listed as their conversations, whole, newest first. */
  lemma {:induction false} PrintedPages(lines: seq<string>, forests: seq<seq<Tree>>, limit: nat, fetch: seq<nat> -> seq<Summary>, present: set<nat>)
    requires |lines| == |forests| && forall i :: 0 <= i < |lines| ==> Carries(lines[i], forests[i])
    requires limit > 0 && Fetches(fetch, present)
    ensures ReadLines(lines) == Conversations(Together(forests))
    ensures ThreadUids(Pages(ReadLines(lines), limit, 0, fetch)) == Surviving(Ordered(Conversations(Together(forests))), present)
  {
    hide *;
    ResponseRead(lines, forests);
    PagesListEachOnce(Conversations(Together(forests)), limit, fetch, present);
  }
}
