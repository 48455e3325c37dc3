/** Live updates of one folder: the delta a socket sends, and a client that replays
    it (src/lightr/api/events.py). */
module Events {
  import opened Mailbox

  type Flags = set<string>

  /** UIDs and their flags. */
  type View = map<nat, Flags>

  const WINDOW: nat := 50

  /** What the client is told. `removed` is sent as a sorted list. A `Ready` names the
      folder now watched and says nothing of its messages: the client lists them. */
  datatype Frame =
    | Update(folder: string, arrived: View, changed: View, removed: set<nat>)
    | Ready(folder: string)

  // ----- the server's window

  ghost predicate Increasing(uids: seq<nat>) { forall i, j :: 0 <= i < j < |uids| ==> uids[i] < uids[j] }

  function Reverse(uids: seq<nat>): (r: seq<nat>)
    ensures |r| == |uids|
  {
    seq(|uids|, i requires 0 <= i < |uids| => uids[|uids| - 1 - i])
  }

  /** `_snapshot`: the newest WINDOW of the UIDs a SEARCH found, as far as the FETCH
      that follows still finds them in the folder. */
  function Listing(searched: seq<nat>, folder: View): View {
    var window := Window(Reverse(searched), 0, WINDOW);
    map uid | uid in window && uid in folder :: folder[uid]
  }

  predicate IsLowest(m: nat, uids: set<nat>) { m in uids && forall u :: u in uids ==> m <= u }

  function Lowest(uids: set<nat>): (m: nat)
    requires uids != {}
    ensures IsLowest(m, uids)
  {
    LowestExists(uids);
    var m :| IsLowest(m, uids);
    m
  }

  lemma {:induction false} LowestExists(uids: set<nat>)
    requires uids != {}
    ensures exists m :: IsLowest(m, uids)
  {
    var some :| some in uids;
    var rest := uids - {some};
    if rest == {} {
      assert forall u :: u in uids ==> u == some by { assert forall u :: u in uids && u != some ==> u in rest; }
      assert IsLowest(some, uids);
    } else {
      LowestExists(rest);
      var m :| IsLowest(m, rest);
      LowestOf(some, m, rest);
      assert {some} + rest == uids;
    }
  }

  lemma {:induction false} LowestOf(some: nat, m: nat, rest: set<nat>)
    requires IsLowest(m, rest)
    ensures IsLowest(if some < m then some else m, {some} + rest)
  {
  }

  /** `_emit`: what changed from one view to the next. */
  function Arrived(before: View, after: View): View { map uid | uid in after && uid !in before :: after[uid] }

  function Changed(before: View, after: View): View {
    map uid | uid in after && uid in before && before[uid] != after[uid] :: after[uid]
  }

  function Floor(after: View): nat { if |after| >= WINDOW then Lowest(after.Keys) else 0 }

  function Removed(before: View, after: View): set<nat> {
    set uid | uid in before && uid !in after && uid >= Floor(after)
  }

  function Emit(folder: string, before: View, after: View): seq<Frame> {
    var update := Update(folder, Arrived(before, after), Changed(before, after), Removed(before, after));
    if update.arrived == map[] && update.changed == map[] && update.removed == {} then [] else [update]
  }

  // ----- the client

  function Newer(uid: nat, uids: set<nat>): set<nat> { set v | v in uids && v > uid }

  /** How many UIDs are newer. */
  function Above(uid: nat, uids: set<nat>): nat { |Newer(uid, uids)| }

  function Highest(uids: set<nat>): set<nat> { set uid | uid in uids && Above(uid, uids) < WINDOW }

  function Kept(all: View): View { map uid | uid in Highest(all.Keys) :: all[uid] }

  /** Applies one update, keeping the WINDOW highest UIDs. */
  function Apply(view: View, frame: Frame): View
    requires frame.Update?
  {
    Kept((view - frame.removed) + frame.arrived + frame.changed)
  }

  function Readies(frames: seq<Frame>): nat {
    if frames == [] then 0 else Readies(frames[..|frames| - 1]) + (if frames[|frames| - 1].Ready? then 1 else 0)
  }

  function ListAt(lists: seq<View>, n: nat): View { if n < |lists| then lists[n] else map[] }

  /** The client's view after the frames: it starts from any view at all, applies the
      updates, and after each `Ready` starts again from its own next listing. */
  function Replay(view: View, frames: seq<Frame>, lists: seq<View>): View {
    if frames == [] then view
    else
      var init, last := frames[..|frames| - 1], frames[|frames| - 1];
      if last.Ready? then ListAt(lists, Readies(init)) else Apply(Replay(view, init, lists), last)
  }

  // ----- one update

  lemma {:induction false} FewAreHighest(uids: set<nat>)
    requires |uids| <= WINDOW
    ensures Highest(uids) == uids
  {
    forall uid | uid in uids ensures Above(uid, uids) < WINDOW { AboveSome(uid, uids); }
  }

  lemma {:induction false} AboveSome(uid: nat, uids: set<nat>)
    requires uid in uids
    ensures Above(uid, uids) < |uids|
  {
    Fewer(Newer(uid, uids), uids - {uid});
  }

  lemma {:induction false} Fewer(a: set<nat>, b: set<nat>)
    requires a <= b
    ensures |a| <= |b|
    ensures |a| == |b| ==> a == b
  {
    assert b == a + (b - a);
    assert |b| == |a| + |b - a|;
    if |a| == |b| { assert b - a == {}; }
  }

  /** A full window above some older UIDs. */
  lemma {:induction false} FullIsHighest(uids: set<nat>, older: set<nat>)
    requires |uids| == WINDOW && forall o, u :: o in older && u in uids ==> o < u
    ensures Highest(uids + older) == uids
  {
    forall uid | uid in uids ensures uid in Highest(uids + older) {
      AboveSome(uid, uids);
      assert Newer(uid, uids + older) == Newer(uid, uids);
    }
    forall uid | uid in Highest(uids + older) ensures uid in uids {
      if uid in older { Fewer(uids, Newer(uid, uids + older)); }
    }
  }

  /** When one look brings a client to the server's window `after`: it has what the
      two looks share unchanged, and nothing outside the new window but what the update
      takes out, by name or as older than a full window. */
  ghost predicate Brings(client: View, before: View, after: View) {
    && (forall uid :: uid in after && uid in before && before[uid] == after[uid] ==> uid in client && client[uid] == after[uid])
    && (forall uid :: uid in client && uid !in after ==>
          before != after && (uid in Removed(before, after) || uid < Floor(after)))
  }

  function Merged(client: View, before: View, after: View): View {
    (client - Removed(before, after)) + Arrived(before, after) + Changed(before, after)
  }

  /** If some UID misses the highest, there is a full window of them. */
  lemma {:induction false} HighestFull(uid: nat, uids: set<nat>)
    requires uid in uids && uid !in Highest(uids)
    ensures |Highest(uids)| >= WINDOW
    decreases Above(uid, uids)
  {
    if v :| v in Newer(uid, uids) && v !in Highest(uids) {
      Fewer(Newer(v, uids), Newer(uid, uids));
      HighestFull(v, uids);
    } else {
      Fewer(Newer(uid, uids), Highest(uids));
    }
  }

  /** The highest are a given set exactly when everything else is below a full one. */
  lemma {:induction false} HighestIff(uids: set<nat>, top: View)
    requires |top| <= WINDOW
    ensures Highest(uids) == top.Keys <==> top.Keys <= uids && forall uid :: uid in uids && uid !in top ==> uid < Floor(top)
  {
    assert |top.Keys| == |top|;
    var older := uids - top.Keys;
    if top.Keys <= uids && forall uid :: uid in older ==> uid < Floor(top) {
      assert uids == top.Keys + older;
      if |top| >= WINDOW { FullIsHighest(top.Keys, older); } else { FewAreHighest(top.Keys); }
    }
    if Highest(uids) == top.Keys {
      forall uid | uid in uids && uid !in top ensures uid < Floor(top) {
        HighestFull(uid, uids);
        AboveMonotone(uid, Lowest(top.Keys), uids);
      }
    }
  }

  lemma {:induction false} MergedHas(client: View, before: View, after: View, uid: nat)
    ensures MergedRight(client, before, after, uid)
  {
  }

  lemma {:induction false} KeptIff(all: View, after: View)
    ensures Kept(all) == after <==>
            Highest(all.Keys) == after.Keys && forall uid :: uid in after ==> uid in all && all[uid] == after[uid]
  {
    assert Kept(all).Keys == Highest(all.Keys);
    if Kept(all) == after {
      forall uid | uid in after ensures uid in all && all[uid] == after[uid] { assert Kept(all)[uid] == all[uid]; }
    }
  }

  ghost predicate Agrees(all: View, after: View) { forall uid :: uid in after ==> uid in all && all[uid] == after[uid] }

  ghost predicate RestOlder(all: View, after: View) { forall uid :: uid in all && uid !in after ==> uid < Floor(after) }

  lemma {:induction false} KeptWhen(all: View, after: View)
    requires |after| <= WINDOW
    ensures Kept(all) == after <==> Agrees(all, after) && RestOlder(all, after)
  {
    KeptIff(all, after);
    HighestIff(all.Keys, after);
    hide Highest, Kept, Floor;
    assert Agrees(all, after) ==> after.Keys <= all.Keys;
  }

  lemma {:induction false} AppliedIff(client: View, before: View, after: View)
    requires |after| <= WINDOW && before != after
    ensures Kept(Merged(client, before, after)) == after <==> Brings(client, before, after)
  {
    KeptWhen(Merged(client, before, after), after);
    BroughtValues(client, before, after);
    BroughtOthers(client, before, after);
    hide Kept, Merged, Removed, Floor, Agrees, RestOlder;
  }

  ghost predicate MergedRight(client: View, before: View, after: View, uid: nat) {
    var all := Merged(client, before, after);
    && (uid in after ==>
          (uid in all && all[uid] == after[uid] <==>
           (uid in before && before[uid] == after[uid] ==> uid in client && client[uid] == after[uid])))
    && (uid !in after ==> (uid in all <==> uid in client && uid !in Removed(before, after)))
  }

  lemma {:induction false} BroughtValues(client: View, before: View, after: View)
    ensures Agrees(Merged(client, before, after), after) <==>
            (forall uid :: uid in after && uid in before && before[uid] == after[uid] ==> uid in client && client[uid] == after[uid])
  {
    forall uid ensures MergedRight(client, before, after, uid) { MergedHas(client, before, after, uid); }
    hide Merged, Removed;
    var all := Merged(client, before, after);
    if Agrees(all, after) {
      forall uid | uid in after && uid in before && before[uid] == after[uid]
        ensures uid in client && client[uid] == after[uid]
      {
        assert MergedRight(client, before, after, uid);
      }
    } else {
      var uid :| uid in after && !(uid in all && all[uid] == after[uid]);
      assert MergedRight(client, before, after, uid);
    }
  }

  lemma {:induction false} BroughtOthers(client: View, before: View, after: View)
    ensures RestOlder(Merged(client, before, after), after) <==>
            (forall uid :: uid in client && uid !in after ==> uid in Removed(before, after) || uid < Floor(after))
  {
    hide Floor, Removed, Merged;
    forall uid: nat ensures MergedRight(client, before, after, uid) { MergedHas(client, before, after, uid); }
    if RestOlder(Merged(client, before, after), after) {
      forall uid | uid in client && uid !in after ensures uid in Removed(before, after) || uid < Floor(after) {
        assert MergedRight(client, before, after, uid);
      }
    } else {
      var uid :| uid in Merged(client, before, after) && uid !in after && !(uid < Floor(after));
      assert MergedRight(client, before, after, uid);
    }
  }

  lemma {:induction false} ReplayOne(view: View, frame: Frame, lists: seq<View>)
    requires frame.Update?
    ensures Replay(view, [frame], lists) == Apply(view, frame) && Replay(view, [], lists) == view
  {
    hide Apply;
    assert [frame][..0] == [];
  }

  lemma {:induction false} SameIff(client: View, view: View)
    ensures client == view <==> Brings(client, view, view)
  {
    hide Floor;
    if Brings(client, view, view) { assert client.Keys == view.Keys; }
  }

  /** Wherever the client got its view from, one look brings it to the server's window
      exactly in these cases. */
  lemma {:induction false} EmitBringsIff(client: View, folder: string, before: View, after: View, lists: seq<View>)
    requires |before| <= WINDOW && |after| <= WINDOW
    ensures Replay(client, Emit(folder, before, after), lists) == after <==> Brings(client, before, after)
  {
    SentIffChanged(folder, before, after);
    hide Arrived, Changed, Removed, Kept, Brings;
    var update := Update(folder, Arrived(before, after), Changed(before, after), Removed(before, after));
    ReplayOne(client, update, lists);
    if before != after { AppliedIff(client, before, after); } else { SameIff(client, after); }
    hide Replay;
  }

  /** Whatever happened between two looks, applying the update to the old window
      gives the new one. */
  lemma {:induction false} ApplyGivesAfter(folder: string, before: View, after: View, lists: seq<View>)
    requires |before| <= WINDOW && |after| <= WINDOW
    ensures Replay(before, Emit(folder, before, after), lists) == after
  {
    EmitBringsIff(before, folder, before, after, lists);
    hide Replay, Emit;
  }

  lemma {:induction false} NothingToSend(before: View, after: View)
    requires |before| <= WINDOW
    requires Arrived(before, after) == map[] && Changed(before, after) == map[] && Removed(before, after) == {}
    ensures before == after
  {
    forall uid | uid in after ensures uid in before && before[uid] == after[uid] {
      assert uid !in Arrived(before, after) && uid !in Changed(before, after);
    }
    assert |after.Keys| == |after| && |before.Keys| == |before|;
    if |after| >= WINDOW {
      Fewer(after.Keys, before.Keys);
    } else {
      assert Floor(after) == 0;
      forall uid | uid in before ensures uid in after { assert uid !in Removed(before, after); }
    }
  }

  /** A frame is sent exactly when the window changed. */
  lemma {:induction false} SentIffChanged(folder: string, before: View, after: View)
    requires |before| <= WINDOW
    ensures Emit(folder, before, after) == [] <==> before == after
  {
    if Emit(folder, before, after) == [] { NothingToSend(before, after); }
  }

  // ----- a run

  /** What wakes the loop: Dovecot reports a change, or the client asks to watch a
      folder; then a SEARCH and a FETCH see the folder. A `refresh` asks for the
      folder already watched. */
  datatype Happening =
    | Reported(searched: seq<nat>, folder: View)
    | Watch(wanted: string, searched: seq<nat>, folder: View)
    | Idle

  /** The loop: the watched folder and the last view are carried from one turn to the
      next. */
  method Loop(start: string, first: View, happenings: seq<Happening>)
    returns (frames: seq<Frame>, watched: string, view: View)
    ensures (watched, view) == After(start, first, happenings)
    ensures frames == FramesOf(start, first, happenings)
    ensures |first| <= WINDOW ==> |view| <= WINDOW
  {
    hide Listing, Emit;
    frames, watched, view := [], start, first;
    for n := 0 to |happenings|
      invariant (watched, view) == After(start, first, happenings[..n])
      invariant frames == FramesOf(start, first, happenings[..n])
    {
      assert happenings[..n + 1][..n] == happenings[..n];
      match happenings[n]
      case Reported(searched, folder) =>
        var after := Listing(searched, folder);
        var sent := Emit(watched, view, after);
        frames := frames + sent;
        view := after;
      case Watch(wanted, searched, folder) =>
        if wanted != watched {
          watched := wanted;
          view := Listing(searched, folder);
          frames := frames + [Ready(watched)];
        }
      case Idle =>
    }
    assert happenings[..|happenings|] == happenings;
    if |first| <= WINDOW { AfterSize(start, first, happenings); }
  }

  /** The folder watched and the server's window after a run. */
  function After(start: string, first: View, happenings: seq<Happening>): (string, View) {
    if happenings == [] then (start, first)
    else
      var (watched, view) := After(start, first, happenings[..|happenings| - 1]);
      match happenings[|happenings| - 1]
      case Reported(searched, folder) => (watched, Listing(searched, folder))
      case Watch(wanted, searched, folder) => if wanted == watched then (watched, view) else (wanted, Listing(searched, folder))
      case Idle => (watched, view)
  }

  function FramesOf(start: string, first: View, happenings: seq<Happening>): seq<Frame> {
    if happenings == [] then []
    else
      var init := happenings[..|happenings| - 1];
      var (watched, view) := After(start, first, init);
      FramesOf(start, first, init)
      + match happenings[|happenings| - 1]
        case Reported(searched, folder) => Emit(watched, view, Listing(searched, folder))
        case Watch(wanted, _, _) => if wanted == watched then [] else [Ready(wanted)]
        case Idle => []
  }

  lemma {:induction false} ReplayConcat(view: View, a: seq<Frame>, b: seq<Frame>, lists: seq<View>)
    requires forall frame :: frame in b ==> frame.Update?
    ensures Replay(view, a + b, lists) == Replay(Replay(view, a, lists), b, lists)
  {
    if b == [] {
      assert a + b == a;
    } else {
      var init, last := b[..|b| - 1], b[|b| - 1];
      assert (a + b)[..|a + b| - 1] == a + init && (a + b)[|a + b| - 1] == last;
      assert last in b && forall frame :: frame in init ==> frame in b;
      ReplayConcat(view, a, init, lists);
      hide Apply;
    }
  }

  /** What the client holds after a run, from any view and any listings of its own. */
  function ClientAfter(start: string, first: View, happenings: seq<Happening>, client: View, lists: seq<View>): View {
    Replay(client, FramesOf(start, first, happenings), lists)
  }

  ghost predicate InStep(start: string, first: View, happenings: seq<Happening>, client: View, lists: seq<View>) {
    ClientAfter(start, first, happenings, client, lists) == After(start, first, happenings).1
  }

  lemma {:induction false} AfterSize(start: string, first: View, happenings: seq<Happening>)
    requires |first| <= WINDOW
    ensures |After(start, first, happenings).1| <= WINDOW
  {
    hide Listing;
    if happenings != [] {
      AfterSize(start, first, happenings[..|happenings| - 1]);
      match happenings[|happenings| - 1]
      case Reported(searched, folder) => ListingSize(searched, folder);
      case Watch(_, searched, folder) => ListingSize(searched, folder);
      case Idle =>
    }
  }

  /** A client is in step with the server after a run exactly as its last turn has it:
      a look has to bring it to the new window, a switch needs a listing of its own that
      is the server's snapshot, and anything else changes nothing. Once in step it stays
      so at every look. */
  lemma {:induction false} InStepIff(start: string, first: View, happenings: seq<Happening>, last: Happening,
                                     client: View, lists: seq<View>)
    requires |first| <= WINDOW
    ensures var (watched, view) := After(start, first, happenings);
            var held := ClientAfter(start, first, happenings, client, lists);
            InStep(start, first, happenings + [last], client, lists) <==>
              match last
              case Reported(searched, folder) => Brings(held, view, Listing(searched, folder))
              case Watch(wanted, searched, folder) =>
                if wanted == watched then InStep(start, first, happenings, client, lists)
                else ListAt(lists, Readies(FramesOf(start, first, happenings))) == Listing(searched, folder)
              case Idle => InStep(start, first, happenings, client, lists)
  {
    var run := happenings + [last];
    assert run[..|run| - 1] == happenings;
    var (watched, view) := After(start, first, happenings);
    var held := ClientAfter(start, first, happenings, client, lists);
    var frames := FramesOf(start, first, happenings);
    match last
    case Reported(searched, folder) =>
      var after := Listing(searched, folder);
      AfterSize(start, first, happenings);
      ListingSize(searched, folder);
      ReplayConcat(client, frames, Emit(watched, view, after), lists);
      EmitBringsIff(held, watched, view, after, lists);
      hide Brings, Replay, Emit, Listing;
    case Watch(wanted, searched, folder) =>
      if wanted != watched { assert (frames + [Ready(wanted)])[..|frames|] == frames; } else { assert frames + [] == frames; }
      hide Listing;
    case Idle => assert frames + [] == frames;
  }

  /** A client in step after `k` turns of a run is in step to its end, if what it lists
      at each later switch is what the server saw. */
  lemma {:induction false} InStepStays(start: string, first: View, happenings: seq<Happening>, k: nat,
                                       client: View, lists: seq<View>)
    requires |first| <= WINDOW && k <= |happenings|
    requires InStep(start, first, happenings[..k], client, lists)
    requires forall n :: k <= n < |happenings| ==> ListsAlike(start, first, happenings, n, lists)
    ensures InStep(start, first, happenings, client, lists)
    decreases |happenings|
  {
    hide InStep, Listing;
    if k == |happenings| {
      assert happenings[..k] == happenings;
    } else {
      var n := |happenings| - 1;
      var init, last := happenings[..n], happenings[n];
      assert init[..k] == happenings[..k] && happenings == init + [last];
      forall m | k <= m < |init| ensures ListsAlike(start, first, init, m, lists) {
        assert init[..m] == happenings[..m] && ListsAlike(start, first, happenings, m, lists);
      }
      InStepStays(start, first, init, k, client, lists);
      InStepIff(start, first, init, last, client, lists);
      assert ListsAlike(start, first, happenings, n, lists);
      if last.Reported? { InStepAtLook(start, first, init, last, client, lists); }
    }
  }

  /** If turn `n` switches folders, the client's next listing is the server's
      snapshot. */
  ghost predicate ListsAlike(start: string, first: View, happenings: seq<Happening>, n: nat, lists: seq<View>)
    requires n < |happenings|
  {
    happenings[n].Watch? && happenings[n].wanted != After(start, first, happenings[..n]).0 ==>
      ListAt(lists, Readies(FramesOf(start, first, happenings[..n]))) == Listing(happenings[n].searched, happenings[n].folder)
  }

  lemma {:induction false} InStepAtLook(start: string, first: View, happenings: seq<Happening>, last: Happening,
                                        client: View, lists: seq<View>)
    requires last.Reported? && InStep(start, first, happenings, client, lists)
    ensures Brings(ClientAfter(start, first, happenings, client, lists), After(start, first, happenings).1,
                   Listing(last.searched, last.folder))
  {
    hide Listing, After, ClientAfter, Floor;
  }

  /** An update tells exactly what happened between two looks: as new, the UIDs the old
      window had not; as changed, those in both whose flags differ; as removed, those the
      new window has not, unless they are older than a full one. */
  ghost predicate Tells(frame: Frame, folder: string, before: View, after: View) {
    && frame.Update? && frame.folder == folder
    && (forall uid :: uid in frame.arrived <==> uid in after && uid !in before)
    && (forall uid :: uid in frame.changed <==> uid in after && uid in before && before[uid] != after[uid])
    && (forall uid :: uid in frame.arrived ==> frame.arrived[uid] == after[uid])
    && (forall uid :: uid in frame.changed ==> frame.changed[uid] == after[uid])
    && (forall uid :: uid in frame.removed <==> uid in before && uid !in after && !(|after| >= WINDOW && OlderThan(uid, after)))
  }

  ghost predicate OlderThan(uid: nat, view: View) { forall v :: v in view ==> uid < v }

  lemma {:induction false} FloorIs(after: View, uid: nat)
    requires uid !in after
    ensures uid >= Floor(after) <==> !(|after| >= WINDOW && OlderThan(uid, after))
  {
    if |after| >= WINDOW { assert |after.Keys| == |after|; assert Lowest(after.Keys) in after; }
  }

  lemma {:induction false} EmitTells(folder: string, before: View, after: View)
    requires |before| <= WINDOW
    ensures if before == after then Emit(folder, before, after) == []
            else |Emit(folder, before, after)| == 1 && Tells(Emit(folder, before, after)[0], folder, before, after)
  {
    SentIffChanged(folder, before, after);
    forall uid: nat | uid !in after ensures uid >= Floor(after) <==> !(|after| >= WINDOW && OlderThan(uid, after)) {
      FloorIs(after, uid);
    }
    hide Floor, OlderThan;
  }

  /** What one turn of a run sends. */
  lemma {:induction false} TurnTells(start: string, first: View, happenings: seq<Happening>, last: Happening)
    requires |first| <= WINDOW
    ensures var sent, (watched, view) := FramesOf(start, first, happenings), After(start, first, happenings);
            var all, (watched', view') := FramesOf(start, first, happenings + [last]), After(start, first, happenings + [last]);
            match last
            case Reported(searched, folder) =>
              && watched' == watched && view' == Listing(searched, folder)
              && (if view == view' then all == sent
                  else |all| == |sent| + 1 && all[..|sent|] == sent && Tells(all[|sent|], watched, view, view'))
            case Watch(wanted, searched, folder) =>
              if wanted == watched then all == sent && watched' == watched && view' == view
              else all == sent + [Ready(wanted)] && watched' == wanted && view' == Listing(searched, folder)
            case Idle => all == sent && watched' == watched && view' == view
  {
    var run := happenings + [last];
    assert run[..|run| - 1] == happenings;
    AfterSize(start, first, happenings);
    if last.Reported? {
      var (watched, view) := After(start, first, happenings);
      EmitTells(watched, view, Listing(last.searched, last.folder));
    }
    hide Listing, Emit, Tells;
  }

  /** The folder the last `Ready` named, or the one at the start. */
  function Named(start: string, frames: seq<Frame>): string {
    if frames == [] then start
    else if frames[|frames| - 1].Ready? then frames[|frames| - 1].folder
    else Named(start, frames[..|frames| - 1])
  }

  /** Over any run, every update names the folder that the last `Ready` before it did,
      and that is the folder watched. */
  lemma {:induction false} UpdatesNameWatched(start: string, first: View, happenings: seq<Happening>)
    requires |first| <= WINDOW
    ensures var frames := FramesOf(start, first, happenings);
            && Named(start, frames) == After(start, first, happenings).0
            && forall i :: 0 <= i < |frames| && frames[i].Update? ==> frames[i].folder == Named(start, frames[..i])
  {
    if happenings != [] {
      var init, last := happenings[..|happenings| - 1], happenings[|happenings| - 1];
      assert happenings == init + [last];
      UpdatesNameWatched(start, first, init);
      TurnTells(start, first, init, last);
      var sent, frames := FramesOf(start, first, init), FramesOf(start, first, happenings);
      hide FramesOf, After, Listing;
      assert sent <= frames && |frames| <= |sent| + 1;
      if |frames| == |sent| { assert frames == sent; } else { assert frames[..|frames| - 1] == sent; }
      forall i | 0 <= i < |frames| && frames[i].Update? ensures frames[i].folder == Named(start, frames[..i]) {
        if i < |sent| { assert frames[i] == sent[i] && frames[..i] == sent[..i]; }
      }
    }
  }

  /** A message the client's listing missed is not sent to it at any later look, as
      long as the server goes on seeing it with the same flags. */
  lemma {:induction false} MissedStaysMissed(start: string, first: View, happenings: seq<Happening>, uid: nat, flags: Flags,
                                             client: View, lists: seq<View>)
    requires uid !in client
    requires forall n :: 0 <= n < |happenings| ==> !happenings[n].Watch?
    requires forall n :: 0 <= n <= |happenings| ==> Shows(start, first, happenings, n, uid, flags)
    ensures uid !in ClientAfter(start, first, happenings, client, lists)
  {
    hide Listing;
    if happenings != [] {
      var n := |happenings| - 1;
      var init := happenings[..n];
      forall m | 0 <= m <= |init| ensures Shows(start, first, init, m, uid, flags) {
        assert init[..m] == happenings[..m] && Shows(start, first, happenings, m, uid, flags);
      }
      MissedStaysMissed(start, first, init, uid, flags, client, lists);
      assert happenings[..|happenings|] == happenings;
      assert Shows(start, first, happenings, n, uid, flags) && Shows(start, first, happenings, n + 1, uid, flags);
      var (watched, view) := After(start, first, init);
      var frames := FramesOf(start, first, init);
      match happenings[n]
      case Reported(searched, folder) =>
        var after := Listing(searched, folder);
        ReplayConcat(client, frames, Emit(watched, view, after), lists);
        NotSent(ClientAfter(start, first, init, client, lists), watched, view, after, uid, lists);
        hide Replay, Emit;
      case Idle => assert frames + [] == frames;
    }
  }

  ghost predicate Shows(start: string, first: View, happenings: seq<Happening>, n: nat, uid: nat, flags: Flags)
    requires n <= |happenings|
  {
    var view := After(start, first, happenings[..n]).1;
    uid in view && view[uid] == flags
  }

  lemma {:induction false} NotSent(client: View, folder: string, before: View, after: View, uid: nat, lists: seq<View>)
    requires uid !in client && uid in before && uid in after && before[uid] == after[uid]
    ensures uid !in Replay(client, Emit(folder, before, after), lists)
  {
    var update := Update(folder, Arrived(before, after), Changed(before, after), Removed(before, after));
    ReplayOne(client, update, lists);
    hide Floor;
  }

  /** A client that listed the folder just before message 2 came, while the server took
      its snapshot just after: an update brings message 3 and not message 2. */
  lemma {:induction false} ListedTooEarly(lists: seq<View>)
    ensures var before, after := Unflagged({1, 2}), Unflagged({1, 2, 3});
            3 in Arrived(before, after) && 2 !in Replay(Unflagged({1}), Emit("INBOX", before, after), lists)
  {
    hide Replay, Emit;
    NotSent(Unflagged({1}), "INBOX", Unflagged({1, 2}), Unflagged({1, 2, 3}), 2, lists);
  }

  function Elements(uids: seq<nat>): (r: set<nat>)
    ensures forall u :: u in r <==> u in uids
  {
    set u | u in uids
  }

  lemma {:induction false} ElementsSize(uids: seq<nat>)
    ensures |Elements(uids)| <= |uids|
    ensures Increasing(uids) ==> |Elements(uids)| == |uids|
  {
    if uids != [] {
      var init, last := uids[..|uids| - 1], uids[|uids| - 1];
      ElementsSize(init);
      assert uids == init + [last];
      assert Elements(uids) == Elements(init) + {last};
      if Increasing(uids) { assert last !in init; }
    }
  }

  lemma {:induction false} ListingSize(searched: seq<nat>, folder: View)
    ensures |Listing(searched, folder)| <= WINDOW
  {
    var window := Window(Reverse(searched), 0, WINDOW);
    ElementsSize(window);
    Fewer(Listing(searched, folder).Keys, Elements(window));
    assert |Listing(searched, folder).Keys| == |Listing(searched, folder)|;
  }

  // ----- what the window and a removal mean

  /** The first entry of the window in the order searched. */
  function Start(searched: seq<nat>): (k: nat)
    ensures k <= |searched|
  {
    if |searched| <= WINDOW then 0 else |searched| - WINDOW
  }

  lemma {:induction false} WindowIsTail(searched: seq<nat>)
    ensures Window(Reverse(searched), 0, WINDOW) == Reverse(searched[Start(searched)..])
    ensures Elements(Window(Reverse(searched), 0, WINDOW)) == Elements(searched[Start(searched)..])
  {
    ReverseSame(searched[Start(searched)..]);
  }

  lemma {:induction false} ReverseSame(uids: seq<nat>)
    ensures forall u :: u in uids <==> u in Reverse(uids)
  {
    forall i | 0 <= i < |uids| ensures uids[i] in Reverse(uids) { assert Reverse(uids)[|uids| - 1 - i] == uids[i]; }
  }

  /** Of the UIDs a SEARCH finds in ascending order, the window is the WINDOW
      highest. */
  lemma {:induction false} WindowIsHighest(searched: seq<nat>)
    requires Increasing(searched)
    ensures Elements(Window(Reverse(searched), 0, WINDOW)) == Highest(Elements(searched))
  {
    WindowIsTail(searched);
    forall k: nat | k < |searched|
      ensures searched[k] in searched[Start(searched)..] <==> searched[k] in Highest(Elements(searched))
    {
      AboveCount(searched, k);
      InTail(searched, k, Start(searched));
    }
  }

  /** The server's window has the WINDOW highest UIDs the SEARCH found, as far as they
      are still in the folder, with their flags. */
  lemma {:induction false} ListingMeans(searched: seq<nat>, folder: View)
    requires Increasing(searched)
    ensures forall uid :: uid in Listing(searched, folder) <==> uid in folder && uid in searched && Above(uid, Elements(searched)) < WINDOW
    ensures forall uid :: uid in Listing(searched, folder) ==> Listing(searched, folder)[uid] == folder[uid]
  {
    WindowIsHighest(searched);
    var window := Window(Reverse(searched), 0, WINDOW);
    assert forall uid :: uid in window <==> uid in Elements(window);
    hide Window, Reverse, Above;
  }

  lemma {:induction false} InTail(searched: seq<nat>, k: nat, from: nat)
    requires Increasing(searched) && k < |searched| && from <= |searched|
    ensures searched[k] in searched[from..] <==> from <= k
  {
    var tail := searched[from..];
    if from <= k {
      assert tail[k - from] == searched[k];
    } else {
      assert forall i :: 0 <= i < |tail| ==> tail[i] == searched[from + i] > searched[k];
    }
  }

  lemma {:induction false} AboveCount(searched: seq<nat>, k: nat)
    requires Increasing(searched) && k < |searched|
    ensures Above(searched[k], Elements(searched)) == |searched| - 1 - k
  {
    var tail := searched[k + 1..];
    forall j: nat | j < |searched| ensures searched[j] in tail <==> searched[j] > searched[k] { InTail(searched, j, k + 1); }
    assert Newer(searched[k], Elements(searched)) == Elements(tail);
    ElementsSize(tail);
  }

  /** A UID reported removed is still in the folder exactly when the newer mail
      pushed it off and, in the same look, some message of the new window vanished
      between the SEARCH and the FETCH. UIDs are not reused, so a UID in the folder
      that was known before is among those searched. */
  lemma {:induction false} RemovedExactly(before: View, searched: seq<nat>, folder: View, uid: nat)
    requires Increasing(searched)
    requires forall u :: u in before && u in folder ==> u in searched
    ensures var after := Listing(searched, folder);
            var window := Window(Reverse(searched), 0, WINDOW);
            (uid in Removed(before, after) && uid in folder)
            <==> (uid in before && uid in folder && uid !in window && |after| < WINDOW)
  {
    var after := Listing(searched, folder);
    var window := Window(Reverse(searched), 0, WINDOW);
    WindowIsHighest(searched);
    if uid in before && uid in folder && uid !in window && |after| >= WINDOW {
      var lowest := Lowest(after.Keys);
      assert uid in Elements(searched) && lowest in Elements(window);
      AboveMonotone(uid, lowest, Elements(searched));
    }
  }

  lemma {:induction false} AboveMonotone(high: nat, low: nat, uids: set<nat>)
    ensures high >= low ==> Above(high, uids) <= Above(low, uids)
  {
    if high >= low { Fewer(Newer(high, uids), Newer(low, uids)); }
  }

  /** When SEARCH and FETCH see the same folder, a UID reported removed is really
      gone, never merely pushed off. */
  lemma {:induction false} RemovedIsGone(before: View, searched: seq<nat>, folder: View, uid: nat)
    requires Increasing(searched) && folder.Keys == Elements(searched)
    requires uid in Removed(before, Listing(searched, folder))
    ensures uid !in folder
  {
    RemovedExactly(before, searched, folder, uid);
    WholeListing(searched, folder);
  }

  lemma {:induction false} ListingKeys(searched: seq<nat>, folder: View)
    requires folder.Keys == Elements(searched)
    ensures Listing(searched, folder).Keys == Elements(searched[Start(searched)..])
  {
    WindowIsTail(searched);
    var window, tail := Window(Reverse(searched), 0, WINDOW), searched[Start(searched)..];
    assert forall u :: u in window <==> u in Elements(window);
    assert forall u :: u in tail ==> u in searched;
    hide Reverse, Window;
  }

  /** A look that loses nothing shows a full window, or everything there is. */
  lemma {:induction false} WholeListing(searched: seq<nat>, folder: View)
    requires Increasing(searched) && folder.Keys == Elements(searched)
    ensures |Listing(searched, folder)| < WINDOW ==> forall u :: u in folder ==> u in Window(Reverse(searched), 0, WINDOW)
  {
    var tail := searched[Start(searched)..];
    ListingKeys(searched, folder);
    WindowIsTail(searched);
    ReverseSame(searched);
    ElementsSize(tail);
    assert |Listing(searched, folder).Keys| == |Listing(searched, folder)|;
    hide Listing, Elements, Window;
    if |tail| < WINDOW { assert tail == searched; }
  }

  function UpTo(n: nat): (r: seq<nat>)
    ensures |r| == n && Increasing(r)
  {
    seq(n, i => i + 1)
  }

  function Unflagged(uids: set<nat>): View { map uid | uid in uids :: {} }

  /** A message merely pushed off can be reported removed: fifty messages are shown,
      number 51 arrives, and number 30 vanishes between SEARCH and FETCH. Number 1 is
      then reported removed and is still in the folder. */
  lemma {:induction false} PushedOffReported()
    ensures var before := Listing(UpTo(50), Unflagged(Elements(UpTo(50))));
            var folder := Unflagged(Elements(UpTo(51)) - {30});
            1 in Removed(before, Listing(UpTo(51), folder)) && 1 in folder
  {
    var searched := UpTo(51);
    var folder := Unflagged(Elements(searched) - {30});
    var before := Listing(UpTo(50), Unflagged(Elements(UpTo(50))));
    assert searched[0] == 1 && 1 in folder;
    FirstShown();
    FirstPushedOff(folder);
    hide Listing, UpTo, Removed, Window, Reverse;
    RemovedExactly(before, searched, folder, 1);
  }

  lemma {:induction false} FirstShown()
    ensures 1 in Listing(UpTo(50), Unflagged(Elements(UpTo(50))))
  {
    ListingKeys(UpTo(50), Unflagged(Elements(UpTo(50))));
    assert UpTo(50)[0..] == UpTo(50) && UpTo(50)[0] == 1;
    hide Listing;
  }

  lemma {:induction false} FirstPushedOff(folder: View)
    requires 30 !in folder
    ensures 1 !in Window(Reverse(UpTo(51)), 0, WINDOW) && |Listing(UpTo(51), folder)| < WINDOW
  {
    var searched := UpTo(51);
    var tail, window, after := searched[1..], Window(Reverse(searched), 0, WINDOW), Listing(searched, folder);
    WindowIsTail(searched);
    assert forall i :: 0 <= i < 50 ==> tail[i] == i + 2;
    assert tail[28] == 30;
    assert forall u :: u in window <==> u in Elements(window);
    hide Window, Reverse;
    assert after.Keys <= Elements(window);
    ElementsSize(tail);
    Fewer(after.Keys, Elements(tail));
    assert 30 !in after.Keys && |after.Keys| == |after|;
  }
}
