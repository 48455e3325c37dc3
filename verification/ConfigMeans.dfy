/** What a configuration edit does, stated on the text of the lines. */
module ConfigMeans {
  import opened Text
  import opened ConfigEdit
  import opened ConfigKeeps
  import opened ConfigFile

  // ----- lines

  /** `name:` and something after it. */
  ghost predicate ScalarText(line: string, name: string) { name + ":" <= line && !AllSpace(line[|name| + 1..]) }

  /** `block:` and nothing after it. */
  ghost predicate HeaderText(line: string, block: string) { block + ":" <= line && AllSpace(line[|block| + 1..]) }

  /** Indented by two spaces at least, and then `setting:`. */
  ghost predicate SettingText(line: string, setting: string) {
    "  " <= line && exists indent :: AllSpace(indent) && indent + setting + ":" <= line
  }

  /** Neither blank nor indented nor a comment: the next block begins. */
  ghost predicate TopText(line: string) { line != "" && !IsSpace(line[0]) && line[0] != '#' }

  lemma {:induction false} PlainEnds(name: string)
    requires Plain(name)
    ensures !IsSpace(name[0]) && (name + ":")[|name|] == ':' && !IsSpace(':')
  {
    assert name[0] in name;
  }

  lemma {:induction false} NamedTexts(line: string, name: string)
    requires Plain(name)
    ensures IsScalar(line, name) <==> ScalarText(line, name)
    ensures IsHeader(line, name) <==> HeaderText(line, name)
  {
    PlainEnds(name);
    hide IsSpace, AllSpace, StripRight, Plain;
    if name + ":" <= line { StripRightKeeps(line, name + ":"); }
  }

  lemma {:induction false} SettingTexts(line: string, setting: string)
    requires Plain(setting)
    ensures IsSetting(line, setting) <==> SettingText(line, setting)
  {
    hide IsSpace, AllSpace, Strip, Plain;
    if setting + ":" <= Strip(line) { NamedIndent(line, setting); }
    if indent :| AllSpace(indent) && indent + setting + ":" <= line { IndentedName(line, indent, setting); }
  }

  lemma {:induction false} NamedIndent(line: string, setting: string)
    requires setting + ":" <= Strip(line)
    ensures exists indent :: AllSpace(indent) && indent + setting + ":" <= line
  {
    hide IsSpace, AllSpace, Strip;
    var before, after := StripMeans(line);
    var rest := Strip(line)[|setting| + 1..];
    assert Strip(line) == setting + ":" + rest;
    assert line == before + setting + ":" + (rest + after);
  }

  lemma {:induction false} IndentedName(line: string, indent: string, setting: string)
    requires Plain(setting) && AllSpace(indent) && indent + setting + ":" <= line
    ensures setting + ":" <= Strip(line)
  {
    PlainEnds(setting);
    hide IsSpace, AllSpace, Strip, Plain;
    var name, rest := setting + ":", line[|indent|..];
    assert line == indent + rest && name <= rest;
    StripOfNamed(indent, rest, name);
  }

  lemma {:induction false} StripOfNamed(indent: string, rest: string, name: string)
    requires AllSpace(indent) && name <= rest && name != "" && !IsSpace(name[0]) && !IsSpace(name[|name| - 1])
    ensures name <= Strip(indent + rest)
  {
    hide IsSpace, AllSpace, StripRight, StripLeft;
    StripLeftSpaces(indent, rest);
    StripRightKeeps(rest, name);
  }

  // ----- where a setting is

  ghost predicate IsFirst(lines: seq<string>, i: nat, block: string) {
    i < |lines| && HeaderText(lines[i], block) && forall j :: 0 <= j < i ==> !HeaderText(lines[j], block)
  }

  ghost predicate FirstScalar(lines: seq<string>, i: nat, name: string) {
    i < |lines| && ScalarText(lines[i], name) && forall j :: 0 <= j < i ==> !ScalarText(lines[j], name)
  }

  /** The first line with the setting's name inside the block that header `h` opens. */
  ghost predicate FirstInside(lines: seq<string>, h: nat, i: nat, setting: string) {
    && h < i < |lines| && SettingText(lines[i], setting)
    && forall j :: h < j < i ==> !TopText(lines[j]) && !SettingText(lines[j], setting)
  }

  /** The line that holds a setting: for a top-level scalar the first line that is one of
      that name; for any other, inside the first block of its name. */
  ghost predicate HeldAt(lines: seq<string>, k: Key, i: nat) {
    if k.setting == "" then FirstScalar(lines, i, k.block)
    else exists h :: IsFirst(lines, h, k.block) && FirstInside(lines, h, i, k.setting)
  }

  ghost predicate Held(lines: seq<string>, k: Key) { exists i: nat :: HeldAt(lines, k, i) }

  lemma {:induction false} FirstIff(ks: seq<Kind>, k: Kind, i: nat)
    ensures First(ks, k) == Some(i) <==> i < |ks| && ks[i] == k && forall j :: 0 <= j < i ==> ks[j] != k
  {
    FirstIsNone(ks, k);
    if i < |ks| && ks[i] == k && forall j :: 0 <= j < i ==> ks[j] != k { FirstIs(ks, k, i); }
  }

  lemma {:induction false} FindInIff(ks: seq<Kind>, setting: string, from: nat, i: nat)
    ensures FindIn(ks, setting, from) == Some(i) <==>
            from <= i < |ks| && ks[i] == Setting(setting)
            && forall j :: from <= j < i ==> !TopKind(ks[j]) && ks[j] != Setting(setting)
    decreases |ks| - from
  {
    if from < |ks| { FindInIff(ks, setting, from + 1, i); }
  }

  /** The finders' tests on the text. */
  lemma {:induction false} KindTexts(line: string, name: string)
    requires Plain(name)
    ensures KindOf(line) == Scalar(name) <==> ScalarText(line, name)
    ensures KindOf(line) == Header(name) <==> HeaderText(line, name)
    ensures KindOf(line) == Setting(name) <==> SettingText(line, name)
    ensures TopKind(KindOf(line)) <==> TopText(line)
  {
    KindExact(line, name);
    NamedTexts(line, name);
    SettingTexts(line, name);
    hide KindOf, IsScalar, IsHeader, IsSetting, ScalarText, HeaderText, SettingText, TopKind, Plain;
  }

  lemma {:induction false} HeaderIff(lines: seq<string>, block: string, h: nat)
    requires Plain(block)
    ensures First(Kinds(lines), Header(block)) == Some(h) <==> IsFirst(lines, h, block)
  {
    hide First, KindOf, HeaderText, Plain;
    FirstIff(Kinds(lines), Header(block), h);
    forall j | 0 <= j < |lines| ensures Kinds(lines)[j] == Header(block) <==> HeaderText(lines[j], block) {
      KindTexts(lines[j], block);
    }
  }

  lemma {:induction false} ScalarIff(lines: seq<string>, name: string, i: nat)
    requires Plain(name)
    ensures First(Kinds(lines), Scalar(name)) == Some(i) <==> FirstScalar(lines, i, name)
  {
    hide First, KindOf, ScalarText, Plain;
    FirstIff(Kinds(lines), Scalar(name), i);
    forall j | 0 <= j < |lines| ensures Kinds(lines)[j] == Scalar(name) <==> ScalarText(lines[j], name) {
      KindTexts(lines[j], name);
    }
  }

  lemma {:induction false} InsideIff(lines: seq<string>, h: nat, setting: string, i: nat)
    requires Plain(setting)
    ensures FindIn(Kinds(lines), setting, h + 1) == Some(i) <==> FirstInside(lines, h, i, setting)
  {
    hide FindIn, KindOf, SettingText, TopText, TopKind, Plain;
    FindInIff(Kinds(lines), setting, h + 1, i);
    forall j | 0 <= j < |lines|
      ensures Kinds(lines)[j] == Setting(setting) <==> SettingText(lines[j], setting)
      ensures TopKind(Kinds(lines)[j]) <==> TopText(lines[j])
    {
      KindTexts(lines[j], setting);
    }
  }

  /** The finders find exactly the line that holds the setting. */
  lemma {:induction false} FindIff(lines: seq<string>, k: Key, i: nat)
    requires PlainKey(k)
    ensures Find(Kinds(lines), k) == Some(i) <==> HeldAt(lines, k, i)
  {
    hide First, FindIn, Kinds, IsFirst, FirstInside, FirstScalar, Plain;
    if k.setting == "" {
      ScalarIff(lines, k.block, i);
    } else {
      var header := First(Kinds(lines), Header(k.block));
      if header.Some? {
        HeaderIff(lines, k.block, header.value);
        InsideIff(lines, header.value, k.setting, i);
      }
      if h :| IsFirst(lines, h, k.block) && FirstInside(lines, h, i, k.setting) { HeaderIff(lines, k.block, h); }
    }
  }

  lemma {:induction false} NotFoundIff(lines: seq<string>, k: Key)
    requires PlainKey(k)
    ensures Find(Kinds(lines), k) == None <==> !Held(lines, k)
  {
    hide Find, Kinds, HeldAt, PlainKey;
    forall i: nat ensures Find(Kinds(lines), k) == Some(i) <==> HeldAt(lines, k, i) { FindIff(lines, k, i); }
  }

  // ----- edits

  /** The line asked for. */
  ghost predicate Asks(e: Entry, line: string) {
    line == if e.key.setting == "" then e.key.block + ": " + e.rendered else "  " + e.key.setting + ": " + e.rendered
  }

  lemma {:induction false} WantedAsks(e: Entry)
    ensures Asks(e, Wanted(e))
  {
  }

  /** A setting that is there is rewritten in its line. A new scalar goes first, a new
      setting right under its block's header, and a new block last, after a blank line
      when the file does not end in one. */
  lemma {:induction false} EditMeans(lines: seq<string>, e: Entry, line: string)
    requires ProperEntry(e) && Asks(e, line)
    ensures forall i: nat :: HeldAt(lines, e.key, i) ==> i < |lines| && Edit(lines, e) == lines[i := line]
    ensures !Held(lines, e.key) && e.key.setting == "" ==> Edit(lines, e) == [line] + lines
    ensures !Held(lines, e.key) && e.key.setting != "" ==>
              forall h: nat :: IsFirst(lines, h, e.key.block) ==>
                h < |lines| && Edit(lines, e) == lines[..h + 1] + [line] + lines[h + 1..]
    ensures !Held(lines, e.key) && e.key.setting != "" && (forall h: nat :: !IsFirst(lines, h, e.key.block)) ==>
              var blank := lines != [] && !AllSpace(lines[|lines| - 1]);
              Edit(lines, e) == lines + (if blank then [""] else []) + [e.key.block + ":"] + [line]
  {
    hide *;
    EntryPlain(e);
    NotFoundIff(lines, e.key);
    forall i: nat | HeldAt(lines, e.key, i) ensures i < |lines| && Edit(lines, e) == lines[i := line] {
      FindIff(lines, e.key, i);
      EditFound(lines, e, line, i);
    }
    if !Held(lines, e.key) {
      EditNew(lines, e, line);
      forall h: nat ensures First(Kinds(lines), Header(e.key.block)) == Some(h) <==> IsFirst(lines, h, e.key.block) {
        HeaderIff(lines, e.key.block, h);
      }
    }
  }

  lemma {:induction false} EntryPlain(e: Entry)
    requires ProperEntry(e)
    ensures PlainKey(e.key) && Plain(e.key.block)
  {
  }

  lemma {:induction false} EditFound(lines: seq<string>, e: Entry, line: string, i: nat)
    requires Find(Kinds(lines), e.key) == Some(i) && Asks(e, line)
    ensures i < |lines| && Edit(lines, e) == lines[i := line]
  {
    EditUnfold(lines, e);
    WantedAsks(e);
    hide Edit, Find, Kinds, Wanted;
  }

  lemma {:induction false} EditNew(lines: seq<string>, e: Entry, line: string)
    requires Find(Kinds(lines), e.key) == None && Asks(e, line)
    ensures e.key.setting == "" ==> Edit(lines, e) == [line] + lines
    ensures e.key.setting != "" ==>
              match First(Kinds(lines), Header(e.key.block))
              case Some(h) => h < |lines| && Edit(lines, e) == lines[..h + 1] + [line] + lines[h + 1..]
              case None =>
                var blank := lines != [] && !AllSpace(lines[|lines| - 1]);
                Edit(lines, e) == lines + (if blank then [""] else []) + [e.key.block + ":"] + [line]
  {
    EditUnfold(lines, e);
    WantedAsks(e);
    if lines != [] { BlankIff(lines[|lines| - 1]); }
    hide Edit, Find, First, Kinds, Wanted, Strip, AllSpace;
  }

  lemma {:induction false} BlankIff(line: string)
    ensures Strip(line) == "" <==> AllSpace(line)
  {
    var before, after := StripMeans(line);
    hide Strip, StripLeft, StripRight, IsSpace;
    if AllSpace(line) && Strip(line) != "" { assert line[|before|] == Strip(line)[0]; SomeNotSpace(line); }
  }

  lemma {:induction false} SomeNotSpace(line: string)
    ensures Strip(line) != "" ==> exists i :: 0 <= i < |line| && !IsSpace(line[i])
  {
    var before, after := StripMeans(line);
    if Strip(line) != "" { assert line[|before| + |Strip(line)| - 1] == Strip(line)[|Strip(line)| - 1]; }
    hide IsSpace;
  }

  // ----- runs

  /** After a run each requested setting is held by the line asked for. */
  lemma {:induction false} RunHolds(lines: seq<string>, entries: seq<Entry>, e: Entry) returns (i: nat)
    requires Proper(entries) && e in entries
    ensures var after := EditAll(lines, entries);
            HeldAt(after, e.key, i) && i < |after| && Asks(e, after[i])
  {
    RequestedRead(lines, entries, e);
    WantedAsks(e);
    var after := EditAll(lines, entries);
    i := Find(Kinds(after), e.key).value;
    EntryKey(e);
    FindIff(after, e.key, i);
    hide EditAll, Find, Kinds, HeldAt, Wanted, Asks;
  }

  /** A setting that already holds what is asked for. */
  ghost predicate Settled(lines: seq<string>, e: Entry) {
    exists i: nat :: HeldAt(lines, e.key, i) && i < |lines| && Asks(e, lines[i])
  }

  ghost predicate NameOf(k: Key, name: string) { name == if k.setting == "" then k.block else k.block + "." + k.setting }

  lemma {:induction false} SettledIff(lines: seq<string>, e: Entry)
    requires ProperEntry(e)
    ensures Settled(lines, e) <==> Read(lines, e.key) == Some(Wanted(e))
  {
    EntryKey(e);
    WantedAsks(e);
    var found := Find(Kinds(lines), e.key);
    hide Find, Kinds, HeldAt, Wanted, ProperEntry, PlainKey;
    if found.Some? { FindIff(lines, e.key, found.value); }
    if i: nat :| HeldAt(lines, e.key, i) && i < |lines| && Asks(e, lines[i]) { FindIff(lines, e.key, i); }
  }

  /** The entries at these positions are the ones named, in order. */
  ghost predicate Names(entries: seq<Entry>, at: seq<nat>, names: seq<string>, from: nat) {
    && |at| == |names| && (forall k, l :: 0 <= k < l < |at| ==> at[k] < at[l])
    && forall k :: 0 <= k < |at| ==> from <= at[k] < |entries| && NameOf(entries[at[k]].key, names[k])
  }

  lemma {:induction false} NamesCons(entries: seq<Entry>, at: seq<nat>, names: seq<string>, from: nat, name: string)
    requires Names(entries, at, names, from + 1) && from < |entries| && NameOf(entries[from].key, name)
    ensures Names(entries, [from] + at, [name] + names, from) && Names(entries, at, names, from)
    ensures forall i: nat :: i in [from] + at <==> i == from || i in at
  {
  }

  /** A run reports the settings that did not hold what was asked for, in the order asked
      and by their dotted names. */
  lemma {:induction false} ReportMeans(lines: seq<string>, entries: seq<Entry>) returns (at: seq<nat>)
    requires Proper(entries)
    ensures Names(entries, at, Changed(lines, entries), 0)
    ensures forall i: nat :: i in at <==> i < |entries| && !Settled(lines, entries[i])
    ensures Changed(lines, entries) == [] <==> forall e :: e in entries ==> Settled(lines, e)
  {
    ChangedExactly(lines, entries);
    forall e | e in entries ensures Settled(lines, e) <==> Read(lines, e.key) == Some(Wanted(e)) { SettledIff(lines, e); }
    forall i | 0 <= i < |entries| ensures entries[i] in entries {}
    hide Changed, Read, Wanted, Settled, Proper, Names;
    at := DifferingAt(lines, entries, 0);
    NoneDiffer(lines, entries);
    assert entries[0..] == entries;
  }

  lemma {:induction false} NoneDiffer(lines: seq<string>, entries: seq<Entry>)
    ensures Differing(lines, entries) == [] <==> forall e :: e in entries ==> Read(lines, e.key) == Some(Wanted(e))
  {
    hide Read, Wanted;
    if entries != [] {
      NoneDiffer(lines, entries[1..]);
      assert entries == [entries[0]] + entries[1..];
    }
  }

  lemma {:induction false} DifferingAt(lines: seq<string>, entries: seq<Entry>, from: nat) returns (at: seq<nat>)
    requires from <= |entries|
    ensures Names(entries, at, Differing(lines, entries[from..]), from)
    ensures forall i: nat :: i in at <==> from <= i < |entries| && Read(lines, entries[i].key) != Some(Wanted(entries[i]))
    decreases |entries| - from
  {
    hide Read, Wanted;
    if from == |entries| {
      at := [];
    } else {
      at := DifferingAt(lines, entries, from + 1);
      DifferingFrom(lines, entries, from);
      hide *;
      var rest := Differing(lines, entries[from + 1..]);
      NamesCons(entries, at, rest, from, Name(entries[from].key));
      if Read(lines, entries[from].key) != Some(Wanted(entries[from])) { at := [from] + at; }
    }
  }

  lemma {:induction false} DifferingFrom(lines: seq<string>, entries: seq<Entry>, from: nat)
    requires from < |entries|
    ensures var rest := Differing(lines, entries[from + 1..]);
            Differing(lines, entries[from..]) ==
              if Read(lines, entries[from].key) == Some(Wanted(entries[from])) then rest else [Name(entries[from].key)] + rest
    ensures NameOf(entries[from].key, Name(entries[from].key))
  {
    hide Read, Wanted;
    assert entries[from..][1..] == entries[from + 1..];
  }

  /** The file is left exactly as it is when every setting holds what was asked for, and
      otherwise becomes lines that each end in a line feed. */
  lemma {:induction false} WrittenMeans(text: Option<string>, entries: seq<Entry>)
    requires Proper(entries)
    ensures (forall e :: e in entries ==> Settled(LinesOf(text), e)) ==> Written(text, entries) == text
    ensures (exists e :: e in entries && !Settled(LinesOf(text), e)) ==>
              && Written(text, entries).Some?
              && Ended(EditAll(LinesOf(text), entries)) == Written(text, entries).value
  {
    var lines := LinesOf(text);
    var at := ReportMeans(lines, entries);
    hide LinesOf, Settled, EditAll, Proper, Changed;
    if e :| e in entries && !Settled(lines, e) {
      NotEmptied(lines, entries, e);
      EndedIsJoin(EditAll(lines, entries));
    }
  }

  lemma {:induction false} NotEmptied(lines: seq<string>, entries: seq<Entry>, e: Entry)
    requires Proper(entries) && e in entries
    ensures EditAll(lines, entries) != []
  {
    var i := RunHolds(lines, entries, e);
  }

  /** Each line and a line feed. */
  function Ended(lines: seq<string>): string { if lines == [] then "" else lines[0] + "\n" + Ended(lines[1..]) }

  lemma {:induction false} EndedIsJoin(lines: seq<string>)
    requires lines != []
    ensures Ended(lines) == Join("\n", lines) + "\n"
  {
    if |lines| > 1 {
      EndedIsJoin(lines[1..]);
      JoinCons(lines);
      Associate(lines[0], "\n", Join("\n", lines[1..]), "\n");
      hide *;
    } else {
      assert Ended(lines[1..]) == "";
    }
  }
}
