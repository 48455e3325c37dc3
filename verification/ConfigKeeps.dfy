/** What writing settings into a configuration file changes and what it keeps
    (src/lightr/configtemplate.py). */
module ConfigKeeps {
  import opened Text
  import opened ConfigEdit

  // ----- kinds after an edit

  /** Where an edit puts a line in among the old ones, if it does. */
  function Insertion(ks: seq<Kind>, k: Key): (p: Option<nat>)
    ensures p.Some? ==> p.value <= |ks|
  {
    if Find(ks, k).Some? then None
    else if k.setting == "" then Some(0)
    else match First(ks, Header(k.block)) case None => None case Some(h) => Some(h + 1)
  }

  function KindFor(k: Key): Kind { if k.setting == "" then Scalar(k.block) else Setting(k.setting) }

  function EditedKinds(ks: seq<Kind>, spacer: seq<Kind>, k: Key): seq<Kind> {
    if Find(ks, k).Some? then ks
    else
      match Insertion(ks, k)
      case Some(p) => ks[..p] + [KindFor(k)] + ks[p..]
      case None => ks + spacer + [Header(k.block), Setting(k.setting)]
  }

  lemma {:induction false} EditKinds(lines: seq<string>, e: Entry) returns (spacer: seq<Kind>)
    requires ProperEntry(e)
    ensures spacer in [[], [Inner]] && spacer == Kinds(Spacer(lines))
    ensures Kinds(Edit(lines, e)) == EditedKinds(Kinds(lines), spacer, e.key)
  {
    WantedKind(e);
    SpacerKind(lines);
    spacer := Kinds(Spacer(lines));
    assert spacer in [[], [Inner]];
    HeaderKind(e.key.block);
    hide *;
    if Find(Kinds(lines), e.key).Some? {
      EditFoundKinds(lines, e);
    } else if Insertion(Kinds(lines), e.key).Some? {
      EditInsertedKinds(lines, e);
    } else {
      EditAppendedKinds(lines, e);
    }
  }

  lemma {:induction false} EditFoundKinds(lines: seq<string>, e: Entry)
    requires KindOf(Wanted(e)) == KindFor(e.key) && Find(Kinds(lines), e.key).Some?
    ensures Kinds(Edit(lines, e)) == EditedKinds(Kinds(lines), Kinds(Spacer(lines)), e.key)
  {
    var i := Find(Kinds(lines), e.key).value;
    FoundKind(Kinds(lines), e.key);
    EditUnfold(lines, e);
    hide Kinds, KindOf, Wanted, Find, KindFor, Edit, Insertion, Spacer;
    UpdatedKinds(lines, i, Wanted(e));
    assert Kinds(lines)[i := KindFor(e.key)] == Kinds(lines);
  }

  lemma {:induction false} EditInsertedKinds(lines: seq<string>, e: Entry)
    requires KindOf(Wanted(e)) == KindFor(e.key) && Insertion(Kinds(lines), e.key).Some?
    ensures Kinds(Edit(lines, e)) == EditedKinds(Kinds(lines), Kinds(Spacer(lines)), e.key)
  {
    EditUnfold(lines, e);
    hide Kinds, KindOf, Wanted, Find, KindFor, First, Edit;
    var p := Insertion(Kinds(lines), e.key).value;
    assert Edit(lines, e) == lines[..p] + [Wanted(e)] + lines[p..];
    InsertedKinds(lines, p, Wanted(e));
  }

  lemma {:induction false} EditAppendedKinds(lines: seq<string>, e: Entry)
    requires KindOf(Wanted(e)) == KindFor(e.key) && KindOf(e.key.block + ":") == Header(e.key.block)
    requires Find(Kinds(lines), e.key).None? && Insertion(Kinds(lines), e.key).None?
    ensures Kinds(Edit(lines, e)) == EditedKinds(Kinds(lines), Kinds(Spacer(lines)), e.key)
  {
    hide Kinds, KindOf, Wanted, Find, First, Spacer;
    AppendedKinds(lines, Spacer(lines), e.key.block + ":", Wanted(e));
  }

  lemma {:induction false} FoundKind(ks: seq<Kind>, k: Key)
    ensures Find(ks, k).Some? ==> Find(ks, k).value < |ks| && ks[Find(ks, k).value] == KindFor(k)
  {
  }

  lemma {:induction false} UpdatedKinds(lines: seq<string>, i: nat, line: string)
    requires i < |lines|
    ensures Kinds(lines[i := line]) == Kinds(lines)[i := KindOf(line)]
  {
  }

  lemma {:induction false} InsertedKinds(lines: seq<string>, p: nat, line: string)
    requires p <= |lines|
    ensures Kinds(lines[..p] + [line] + lines[p..]) == Kinds(lines)[..p] + [KindOf(line)] + Kinds(lines)[p..]
  {
  }

  lemma {:induction false} AppendedKinds(lines: seq<string>, spacer: seq<string>, header: string, line: string)
    ensures Kinds(lines + spacer + [header, line]) == Kinds(lines) + Kinds(spacer) + [KindOf(header), KindOf(line)]
  {
  }

  // ----- finders after an edit

  function MoveBy(p: Option<nat>, i: nat): nat { if p.Some? && i >= p.value then i + 1 else i }

  function MoveFound(p: Option<nat>, i: Option<nat>): Option<nat> {
    match i case None => None case Some(n) => Some(MoveBy(p, n))
  }

  function Inserted(ks: seq<Kind>, p: nat, x: Kind): seq<Kind>
    requires p <= |ks|
  {
    ks[..p] + [x] + ks[p..]
  }

  lemma {:induction false} InsertedCons(ks: seq<Kind>, p: nat, x: Kind)
    requires p <= |ks|
    ensures p == 0 ==> Inserted(ks, p, x) == [x] + ks
    ensures p > 0 ==> ks == [ks[0]] + ks[1..] && Inserted(ks, p, x) == [ks[0]] + Inserted(ks[1..], p - 1, x)
  {
  }

  lemma {:induction false} FirstInserted(ks: seq<Kind>, p: nat, x: Kind, k: Kind)
    requires p <= |ks| && x != k
    ensures First(Inserted(ks, p, x), k) == MoveFound(Some(p), First(ks, k))
  {
    hide First, Inserted;
    InsertedCons(ks, p, x);
    if p == 0 {
      FirstCons(x, ks, k);
    } else {
      FirstInserted(ks[1..], p - 1, x, k);
      FirstCons(ks[0], ks[1..], k);
      FirstCons(ks[0], Inserted(ks[1..], p - 1, x), k);
    }
  }

  lemma {:induction false} FirstCons(x: Kind, ks: seq<Kind>, k: Kind)
    ensures First([x] + ks, k) == if x == k then Some(0) else match First(ks, k) case None => None case Some(i) => Some(i + 1)
  {
    assert ([x] + ks)[1..] == ks;
  }

  lemma {:induction false} FirstAppended(ks: seq<Kind>, tail: seq<Kind>, k: Kind)
    requires k !in tail
    ensures First(ks + tail, k) == First(ks, k)
  {
    if ks == [] {
      assert ks + tail == tail;
      FirstIsNone(tail, k);
    } else {
      assert (ks + tail)[1..] == ks[1..] + tail;
      FirstAppended(ks[1..], tail, k);
    }
  }

  lemma {:induction false} FirstOf(ks: seq<Kind>, k: Kind, rest: seq<Kind>)
    requires k !in ks
    ensures First(ks + [k] + rest, k) == Some(|ks|)
  {
    var all := ks + [k] + rest;
    forall j | 0 <= j < |ks| ensures all[j] != k { assert ks[j] in ks; }
    FirstIs(all, k, |ks|);
  }

  /** A scan that starts after the inserted line. */
  lemma {:induction false} ScanAfter(ks: seq<Kind>, p: nat, x: Kind, setting: string, i: nat)
    requires p <= i <= |ks|
    ensures FindIn(Inserted(ks, p, x), setting, i + 1) == MoveFound(Some(p), FindIn(ks, setting, i))
    decreases |ks| - i
  {
    if i < |ks| {
      assert Inserted(ks, p, x)[i + 1] == ks[i];
      ScanAfter(ks, p, x, setting, i + 1);
    }
  }

  /** A scan that starts at the inserted line and passes it. */
  lemma {:induction false} ScanThrough(ks: seq<Kind>, p: nat, x: Kind, setting: string)
    requires p <= |ks| && !TopKind(x) && x != Setting(setting)
    ensures FindIn(Inserted(ks, p, x), setting, p) == MoveFound(Some(p), FindIn(ks, setting, p))
  {
    ScanAfter(ks, p, x, setting, p);
  }

  /** A scan that stops before the inserted line. */
  lemma {:induction false} ScanBefore(ks: seq<Kind>, p: nat, x: Kind, setting: string, i: nat)
    requires i < p <= |ks| && TopKind(ks[p - 1])
    ensures FindIn(Inserted(ks, p, x), setting, i) == MoveFound(Some(p), FindIn(ks, setting, i))
    decreases p - i
  {
    assert Inserted(ks, p, x)[i] == ks[i];
    if !TopKind(ks[i]) && ks[i] != Setting(setting) { ScanBefore(ks, p, x, setting, i + 1); }
  }

  /** A scan that runs to the end and meets an appended block. */
  lemma {:induction false} ScanToAppended(ks: seq<Kind>, spacer: seq<Kind>, tail: seq<Kind>, setting: string, i: nat)
    requires spacer in [[], [Inner]] && tail != [] && TopKind(tail[0]) && i <= |ks|
    ensures FindIn(ks + spacer + tail, setting, i) == FindIn(ks, setting, i)
    decreases |ks| - i
  {
    var all := ks + spacer + tail;
    if i < |ks| {
      assert all[i] == ks[i];
      ScanToAppended(ks, spacer, tail, setting, i + 1);
    } else {
      assert all[|ks| + |spacer|] == tail[0];
      assert FindIn(all, setting, |ks| + |spacer|) == None;
    }
  }

  lemma {:induction false} ScalarKeeps(ks: seq<Kind>, k: Key, other: Key)
    requires k.setting == "" && other != k
    ensures Find(Inserted(ks, 0, KindFor(k)), other) == MoveFound(Some(0), Find(ks, other))
  {
    if other.setting == "" {
      FirstInserted(ks, 0, KindFor(k), Scalar(other.block));
    } else {
      FirstInserted(ks, 0, KindFor(k), Header(other.block));
      var h := First(ks, Header(other.block));
      if h.Some? { ScanAfter(ks, 0, KindFor(k), other.setting, h.value + 1); }
    }
  }

  lemma {:induction false} SettingKeeps(ks: seq<Kind>, k: Key, h: nat, other: Key)
    requires k.setting != "" && other != k && First(ks, Header(k.block)) == Some(h)
    ensures Find(Inserted(ks, h + 1, KindFor(k)), other) == MoveFound(Some(h + 1), Find(ks, other))
  {
    hide First, FindIn, Inserted;
    var p, x := h + 1, KindFor(k);
    if other.setting == "" {
      FirstInserted(ks, p, x, Scalar(other.block));
    } else {
      FirstInserted(ks, p, x, Header(other.block));
      var h' := First(ks, Header(other.block));
      if h'.Some? {
        if h'.value == h {
          ScanThrough(ks, p, x, other.setting);
        } else if h'.value < h {
          ScanBefore(ks, p, x, other.setting, h'.value + 1);
        } else {
          ScanAfter(ks, p, x, other.setting, h'.value + 1);
        }
      }
    }
  }

  lemma {:induction false} AppendKeeps(ks: seq<Kind>, spacer: seq<Kind>, k: Key, other: Key)
    requires spacer in [[], [Inner]] && k.setting != "" && other != k && First(ks, Header(k.block)).None?
    ensures Find(ks + spacer + [Header(k.block), Setting(k.setting)], other) == Find(ks, other)
  {
    var tail := [Header(k.block), Setting(k.setting)];
    var all := ks + spacer + tail;
    assert all == ks + (spacer + tail);
    if other.setting == "" {
      FirstAppended(ks, spacer + tail, Scalar(other.block));
    } else if other.block != k.block {
      FirstAppended(ks, spacer + tail, Header(other.block));
      var h := First(ks, Header(other.block));
      if h.Some? { ScanToAppended(ks, spacer, tail, other.setting, h.value + 1); }
    } else {
      AppendedHeader(ks, spacer, k);
      var h := |ks| + |spacer|;
      assert all[h + 1] == Setting(k.setting) && |all| == h + 2;
      assert FindIn(all, other.setting, h + 2) == None;
    }
  }

  lemma {:induction false} AppendedHeader(ks: seq<Kind>, spacer: seq<Kind>, k: Key)
    requires spacer in [[], [Inner]] && First(ks, Header(k.block)).None?
    ensures First(ks + spacer + [Header(k.block), Setting(k.setting)], Header(k.block)) == Some(|ks| + |spacer|)
  {
    FirstIsNone(ks, Header(k.block));
    FirstOf(ks + spacer, Header(k.block), [Setting(k.setting)]);
    assert ks + spacer + [Header(k.block)] + [Setting(k.setting)] == ks + spacer + [Header(k.block), Setting(k.setting)];
  }

  /** An edit moves every other setting with its line and finds no new one. */
  lemma {:induction false} KindsKeep(ks: seq<Kind>, spacer: seq<Kind>, k: Key, other: Key)
    requires spacer in [[], [Inner]] && other != k
    ensures Find(EditedKinds(ks, spacer, k), other) == MoveFound(Insertion(ks, k), Find(ks, other))
  {
    hide First, FindIn;
    if Find(ks, k).Some? {
    } else if k.setting == "" {
      ScalarKeeps(ks, k, other);
    } else if First(ks, Header(k.block)).Some? {
      SettingKeeps(ks, k, First(ks, Header(k.block)).value, other);
    } else {
      AppendKeeps(ks, spacer, k, other);
    }
  }

  /** The index at which an edit leaves its own setting. */
  function Place(ks: seq<Kind>, spacer: seq<Kind>, k: Key): nat {
    match Find(ks, k)
    case Some(i) => i
    case None => match Insertion(ks, k) case Some(p) => p case None => |ks| + |spacer| + 1
  }

  lemma {:induction false} KindsFind(ks: seq<Kind>, spacer: seq<Kind>, k: Key)
    requires spacer in [[], [Inner]]
    ensures Find(EditedKinds(ks, spacer, k), k) == Some(Place(ks, spacer, k))
  {
    var all := EditedKinds(ks, spacer, k);
    if Find(ks, k).Some? {
    } else if k.setting == "" {
      FirstOf([], Scalar(k.block), ks);
      assert all == [] + [Scalar(k.block)] + ks;
    } else if First(ks, Header(k.block)).Some? {
      var h := First(ks, Header(k.block)).value;
      assert all == Inserted(ks, h + 1, Setting(k.setting));
      FirstInserted(ks, h + 1, Setting(k.setting), Header(k.block));
      assert all[h + 1] == Setting(k.setting);
    } else {
      AppendedHeader(ks, spacer, k);
      assert all[|ks| + |spacer| + 1] == Setting(k.setting);
    }
  }
}
