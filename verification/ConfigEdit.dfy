/** Writing settings into a commented configuration file without touching the rest
    (src/lightr/configtemplate.py). */
module ConfigEdit {
  import opened Text

  /** `(block, setting)`; the empty setting names a top-level scalar. */
  datatype Key = Key(block: string, setting: string)

  /** A requested setting and its rendered value. */
  datatype Entry = Entry(key: Key, rendered: string)

  /** A name that can stand before a colon. */
  predicate Plain(name: string) {
    name != "" && name[0] != '#' && forall c :: c in name ==> c != ':' && !IsSpace(c) && !IsBreak(c)
  }

  predicate PlainKey(k: Key) { Plain(k.block) && (k.setting == "" || Plain(k.setting)) }

  /** What `_render` returns: one line, stripped, not empty. */
  predicate Rendered(value: string) {
    value != "" && !IsSpace(value[|value| - 1]) && forall c :: c in value ==> !IsBreak(c)
  }

  predicate ProperEntry(e: Entry) { PlainKey(e.key) && Rendered(e.rendered) }

  // ----- the finders

  /** A line that starts a top-level entry. */
  predicate TopLevel(line: string) { line != "" && !IsSpace(line[0]) && line[0] != '#' }

  predicate IsScalar(line: string, name: string) { name + ":" <= line && StripRight(line) != name + ":" }

  predicate IsHeader(line: string, block: string) { StripRight(line) == block + ":" }

  predicate IsSetting(line: string, setting: string) { setting + ":" <= Strip(line) && "  " <= line }

  method FindScalar(lines: seq<string>, name: string) returns (index: Option<nat>)
    requires Plain(name)
    ensures index == First(Kinds(lines), Scalar(name))
  {
    hide *;
    for i := 0 to |lines|
      invariant forall j :: 0 <= j < i ==> Kinds(lines)[j] != Scalar(name)
    {
      KindExact(lines[i], name);
      KindsAt(lines, i);
      if IsScalar(lines[i], name) {
        FirstIs(Kinds(lines), Scalar(name), i);
        return Some(i);
      }
    }
    NotInside(Kinds(lines), Scalar(name));
    FirstIsNone(Kinds(lines), Scalar(name));
    index := None;
  }

  method FindBlock(lines: seq<string>, block: string) returns (index: Option<nat>)
    requires Plain(block)
    ensures index == First(Kinds(lines), Header(block))
  {
    hide *;
    for i := 0 to |lines|
      invariant forall j :: 0 <= j < i ==> Kinds(lines)[j] != Header(block)
    {
      KindExact(lines[i], block);
      KindsAt(lines, i);
      if IsHeader(lines[i], block) {
        FirstIs(Kinds(lines), Header(block), i);
        return Some(i);
      }
    }
    NotInside(Kinds(lines), Header(block));
    FirstIsNone(Kinds(lines), Header(block));
    index := None;
  }

  method FindSetting(lines: seq<string>, block: string, setting: string) returns (index: Option<nat>)
    requires Plain(block) && Plain(setting)
    ensures index == Find(Kinds(lines), Key(block, setting))
  {
    hide *;
    var header := FindBlock(lines, block);
    FindUnfold(lines, block, setting);
    if header.None? { return None; }
    for i := header.value + 1 to |lines|
      invariant Find(Kinds(lines), Key(block, setting)) == FindIn(Kinds(lines), setting, i)
    {
      FindInUnfold(lines, setting, i);
      if TopLevel(lines[i]) { return None; }
      if IsSetting(lines[i], setting) { return Some(i); }
    }
    FindInUnfold(lines, setting, |lines|);
    index := None;
  }

  lemma {:induction false} FindUnfold(lines: seq<string>, block: string, setting: string)
    requires Plain(setting)
    ensures Find(Kinds(lines), Key(block, setting))
         == match First(Kinds(lines), Header(block)) case None => None case Some(h) => FindIn(Kinds(lines), setting, h + 1)
    ensures First(Kinds(lines), Header(block)).Some? ==> First(Kinds(lines), Header(block)).value < |lines|
  {
    hide First, FindIn, Kinds;
  }

  lemma {:induction false} FindInUnfold(lines: seq<string>, setting: string, i: nat)
    requires Plain(setting) && i <= |lines|
    ensures FindIn(Kinds(lines), setting, i)
         == if i == |lines| || TopLevel(lines[i]) then None
            else if IsSetting(lines[i], setting) then Some(i)
            else FindIn(Kinds(lines), setting, i + 1)
  {
    if i < |lines| { KindExact(lines[i], setting); }
    hide KindOf, TopLevel, IsSetting, Plain;
  }

  // ----- what the finders see of a line

  /** The kinds of lines the finders tell apart. */
  datatype Kind = Header(block: string) | Scalar(name: string) | TopText | Setting(setting: string) | Inner

  predicate TopKind(k: Kind) { k.Header? || k.Scalar? || k.TopText? }

  /** The text before the first colon. */
  function Before(s: string): (r: string)
    ensures r <= s && ':' !in r
    ensures ':' in s ==> |r| < |s| && s[|r|] == ':'
  {
    if s == "" || s[0] == ':' then "" else [s[0]] + Before(s[1..])
  }

  function KindOf(line: string): Kind {
    if TopLevel(line) then
      if ':' !in line then TopText
      else if StripRight(line) == Before(line) + ":" then Header(Before(line)) else Scalar(Before(line))
    else if "  " <= line && ':' in Strip(line) then Setting(Before(Strip(line)))
    else Inner
  }

  function Kinds(lines: seq<string>): (r: seq<Kind>)
    ensures |r| == |lines|
  {
    seq(|lines|, i requires 0 <= i < |lines| => KindOf(lines[i]))
  }

  lemma {:induction false} ColonPrefix(s: string, name: string)
    requires ':' !in name
    ensures name + ":" <= s <==> ':' in s && Before(s) == name
  {
    if s != "" && s[0] != ':' && name != "" && name[0] == s[0] {
      ColonPrefix(s[1..], name[1..]);
      assert s == [s[0]] + s[1..] && name == [s[0]] + name[1..];
      assert name + ":" == [s[0]] + (name[1..] + ":");
    } else if s != "" {
      assert (name + ":")[0] == if name == "" then ':' else name[0];
    }
  }

  lemma {:induction false} NamedIsTop(line: string, name: string)
    requires Plain(name) && name + ":" <= line
    ensures TopLevel(line)
  {
    assert name[0] in name && line[0] == name[0];
  }

  lemma {:induction false} IndentedIsNot(line: string)
    requires "  " <= line
    ensures !TopLevel(line)
  {
    Space();
    assert line[0] == ' ';
  }

  lemma {:induction false} TopExact(line: string)
    ensures TopLevel(line) <==> TopKind(KindOf(line))
  {
    hide TopLevel, Before, Strip, StripRight;
  }

  lemma {:induction false} SettingExact(line: string, name: string)
    requires Plain(name)
    ensures IsSetting(line, name) <==> KindOf(line) == Setting(name)
  {
    ColonPrefix(Strip(line), name);
    if "  " <= line { IndentedIsNot(line); }
    hide TopLevel, Before, Strip, StripRight;
  }

  lemma {:induction false} HeaderExact(line: string, name: string)
    requires Plain(name)
    ensures IsHeader(line, name) <==> KindOf(line) == Header(name)
  {
    ColonPrefix(line, name);
    if name + ":" <= line { NamedIsTop(line, name); }
    hide TopLevel, Before, Strip, StripRight;
  }

  lemma {:induction false} ScalarExact(line: string, name: string)
    requires Plain(name)
    ensures IsScalar(line, name) <==> KindOf(line) == Scalar(name)
  {
    ColonPrefix(line, name);
    if name + ":" <= line { NamedIsTop(line, name); }
    hide TopLevel, Before, Strip, StripRight;
  }

  /** The finders' tests are tests of a line's kind. */
  lemma {:induction false} KindExact(line: string, name: string)
    requires Plain(name)
    ensures IsScalar(line, name) <==> KindOf(line) == Scalar(name)
    ensures IsHeader(line, name) <==> KindOf(line) == Header(name)
    ensures IsSetting(line, name) <==> KindOf(line) == Setting(name)
    ensures TopLevel(line) <==> TopKind(KindOf(line))
  {
    hide *;
    ScalarExact(line, name);
    HeaderExact(line, name);
    SettingExact(line, name);
    TopExact(line);
  }

  lemma {:induction false} Space()
    ensures IsSpace(' ') && !IsSpace(':')
  {
  }

  lemma {:induction false} KindsAt(lines: seq<string>, i: nat)
    requires i < |lines|
    ensures Kinds(lines)[i] == KindOf(lines[i])
  {
    hide KindOf;
  }

  lemma {:induction false} NotInside(ks: seq<Kind>, k: Kind)
    requires forall j :: 0 <= j < |ks| ==> ks[j] != k
    ensures k !in ks
  {
  }

  /** The first line of a kind. */
  function First(ks: seq<Kind>, k: Kind): (r: Option<nat>)
    ensures r.Some? ==> r.value < |ks| && ks[r.value] == k
  {
    if ks == [] then None
    else if ks[0] == k then Some(0)
    else match First(ks[1..], k) case None => None case Some(i) => Some(i + 1)
  }

  lemma {:induction false} FirstIs(ks: seq<Kind>, k: Kind, i: nat)
    requires i < |ks| && ks[i] == k && forall j :: 0 <= j < i ==> ks[j] != k
    ensures First(ks, k) == Some(i)
  {
    if i > 0 { FirstIs(ks[1..], k, i - 1); }
  }

  lemma {:induction false} FirstIsNone(ks: seq<Kind>, k: Kind)
    ensures First(ks, k).None? <==> k !in ks
    ensures First(ks, k).Some? ==> forall j :: 0 <= j < First(ks, k).value ==> ks[j] != k
  {
    if ks != [] {
      FirstIsNone(ks[1..], k);
      assert ks == [ks[0]] + ks[1..];
    }
  }

  /** A setting of the block whose lines start at `i`. */
  function FindIn(ks: seq<Kind>, setting: string, i: nat): (r: Option<nat>)
    ensures r.Some? ==> i <= r.value < |ks| && ks[r.value] == Setting(setting)
    decreases |ks| - i
  {
    if i >= |ks| || TopKind(ks[i]) then None
    else if ks[i] == Setting(setting) then Some(i)
    else FindIn(ks, setting, i + 1)
  }

  /** The line that holds a setting. */
  function Find(ks: seq<Kind>, k: Key): (r: Option<nat>)
    ensures r.Some? ==> r.value < |ks|
    ensures r.Some? ==> ks[r.value] == (if k.setting == "" then Scalar(k.block) else Setting(k.setting))
  {
    if k.setting == "" then First(ks, Scalar(k.block))
    else match First(ks, Header(k.block)) case None => None case Some(h) => FindIn(ks, k.setting, h + 1)
  }

  function Read(lines: seq<string>, k: Key): Option<string> {
    match Find(Kinds(lines), k) case None => None case Some(i) => Some(lines[i])
  }

  // ----- one edit

  function Wanted(e: Entry): string {
    if e.key.setting == "" then e.key.block + ": " + e.rendered
    else "  " + e.key.setting + ": " + e.rendered
  }

  function Spacer(lines: seq<string>): seq<string> {
    if lines != [] && Strip(lines[|lines| - 1]) != "" then [""] else []
  }

  /** The lines after one requested setting. */
  function Edit(lines: seq<string>, e: Entry): seq<string> {
    var ks := Kinds(lines);
    match Find(ks, e.key)
    case Some(i) => lines[i := Wanted(e)]
    case None =>
      if e.key.setting == "" then [Wanted(e)] + lines
      else
        match First(ks, Header(e.key.block))
        case Some(h) => lines[..h + 1] + [Wanted(e)] + lines[h + 1..]
        case None => lines + Spacer(lines) + [e.key.block + ":", Wanted(e)]
  }

  function Name(k: Key): string { if k.setting == "" then k.block else k.block + "." + k.setting }

  function EditAll(lines: seq<string>, entries: seq<Entry>): seq<string>
    decreases |entries|
  {
    if entries == [] then lines else EditAll(Edit(lines, entries[0]), entries[1..])
  }

  /** The settings a run reports as changed. */
  function Changed(lines: seq<string>, entries: seq<Entry>): seq<string>
    decreases |entries|
  {
    if entries == [] then []
    else
      var lines' := Edit(lines, entries[0]);
      (if lines' == lines then [] else [Name(entries[0].key)]) + Changed(lines', entries[1..])
  }

  /** The loop of `set_values` over the requested settings. */
  method SetLines(original: seq<string>, entries: seq<Entry>) returns (lines: seq<string>, changed: seq<string>)
    requires forall e :: e in entries ==> ProperEntry(e)
    ensures lines == EditAll(original, entries) && changed == Changed(original, entries)
  {
    hide *;
    lines, changed := original, [];
    assert entries[0..] == entries;
    for n := 0 to |entries|
      invariant EditAll(original, entries) == EditAll(lines, entries[n..])
      invariant Changed(original, entries) == changed + Changed(lines, entries[n..])
    {
      var e := entries[n];
      ghost var before := lines;
      NextEntry(lines, entries, n);
      EntryKey(e);
      EditUnfold(lines, e);
      var index: Option<nat>;
      if e.key.setting == "" {
        index := FindScalar(lines, e.key.block);
      } else {
        index := FindSetting(lines, e.key.block, e.key.setting);
      }
      if index.Some? {
        if lines[index.value] == Wanted(e) {
          continue;
        }
        lines := lines[index.value := Wanted(e)];
      } else if e.key.setting == "" {
        lines := [Wanted(e)] + lines;
      } else {
        var header := FindBlock(lines, e.key.block);
        if header.None? {
          if lines != [] && Strip(lines[|lines| - 1]) != "" {
            lines := lines + [""];
          }
          lines := lines + [e.key.block + ":"];
          lines := lines + ["  " + e.key.setting + ": " + e.rendered];
        } else {
          lines := lines[..header.value + 1] + [Wanted(e)] + lines[header.value + 1..];
        }
      }
      assert lines == Edit(before, e);
      changed := changed + [Name(e.key)];
    }
    NoEntries(lines);
    assert entries[|entries|..] == [];
  }

  lemma {:induction false} NextEntry(lines: seq<string>, entries: seq<Entry>, n: nat)
    requires n < |entries|
    ensures var lines' := Edit(lines, entries[n]);
            && EditAll(lines, entries[n..]) == EditAll(lines', entries[n + 1..])
            && Changed(lines, entries[n..])
               == (if lines' == lines then [] else [Name(entries[n].key)]) + Changed(lines', entries[n + 1..])
  {
    hide Edit;
    assert entries[n..][1..] == entries[n + 1..];
  }

  lemma {:induction false} NoEntries(lines: seq<string>)
    ensures EditAll(lines, []) == lines && Changed(lines, []) == []
  {
  }

  /** The four ways an edit can go. */
  lemma {:induction false} EditUnfold(lines: seq<string>, e: Entry)
    ensures var ks := Kinds(lines);
            && |ks| == |lines|
            && (e.key.setting == "" ==> Find(ks, e.key) == First(ks, Scalar(e.key.block)))
            && e.key == Key(e.key.block, e.key.setting)
            && match Find(ks, e.key)
               case Some(i) => i < |lines| && Edit(lines, e) == lines[i := Wanted(e)]
                               && (Edit(lines, e) == lines <==> lines[i] == Wanted(e))
               case None =>
                 && Edit(lines, e) != lines
                 && if e.key.setting == "" then Edit(lines, e) == [Wanted(e)] + lines
                    else match First(ks, Header(e.key.block))
                         case Some(h) => h < |lines| && Edit(lines, e) == lines[..h + 1] + [Wanted(e)] + lines[h + 1..]
                         case None => Edit(lines, e) ==
                                      lines + (if lines != [] && Strip(lines[|lines| - 1]) != "" then [""] else [])
                                            + [e.key.block + ":"] + ["  " + e.key.setting + ": " + e.rendered]
  {
    hide Kinds, First, Strip;
    if Find(Kinds(lines), e.key).None? { assert |Edit(lines, e)| > |lines|; }
  }

  lemma {:induction false} EntryKey(e: Entry)
    requires ProperEntry(e)
    ensures Plain(e.key.block) && (e.key.setting != "" ==> Plain(e.key.setting))
  {
  }

  // ----- the lines written

  lemma {:induction false} WantedKind(e: Entry)
    requires ProperEntry(e)
    ensures KindOf(Wanted(e)) == if e.key.setting == "" then Scalar(e.key.block) else Setting(e.key.setting)
  {
    if e.key.setting == "" { ScalarKind(e.key.block, e.rendered); } else { SettingKind(e.key.setting, e.rendered); }
  }

  lemma {:induction false} ScalarKind(name: string, value: string)
    requires Plain(name) && Rendered(value)
    ensures KindOf(name + ": " + value) == Scalar(name)
  {
    var line := name + ": " + value;
    assert line[|line| - 1] == value[|value| - 1];
    assert StripRight(line) == line;
    assert |line| > |name + ":"|;
    assert line[..|name| + 1] == name + ":";
    KindExact(line, name);
  }

  lemma {:induction false} SettingKind(name: string, value: string)
    requires Plain(name) && Rendered(value)
    ensures KindOf("  " + name + ": " + value) == Setting(name)
  {
    var rest := name + ": " + value;
    assert name[0] in name && rest[0] == name[0] && rest[|rest| - 1] == value[|value| - 1];
    assert !IsSpace(rest[0]) && !IsSpace(rest[|rest| - 1]);
    hide *;
    Associate("  ", name, ": ", value);
    StripIndent(rest);
    Named(name, value);
    Indented(rest);
    SettingIs("  " + rest, rest, name);
  }

  lemma {:induction false} Named(name: string, value: string)
    ensures name + ":" <= name + ": " + value
  {
    assert (name + ": " + value)[..|name| + 1] == name + ":";
  }

  lemma {:induction false} Indented(rest: string)
    ensures "  " <= "  " + rest
  {
  }

  lemma {:induction false} SettingIs(line: string, rest: string, name: string)
    requires Plain(name) && "  " <= line && Strip(line) == rest && name + ":" <= rest
    ensures KindOf(line) == Setting(name)
  {
    hide KindOf, Strip, Plain;
    KindExact(line, name);
  }

  lemma {:induction false} StripIndent(rest: string)
    requires rest != "" && !IsSpace(rest[0]) && !IsSpace(rest[|rest| - 1])
    ensures Strip("  " + rest) == rest
  {
    Space();
    hide IsSpace;
    assert ("  " + rest)[1..] == " " + rest;
    assert (" " + rest)[1..] == rest;
    assert StripLeft(" " + rest) == rest;
    assert StripLeft("  " + rest) == rest;
  }

  lemma {:induction false} HeaderKind(block: string)
    requires Plain(block)
    ensures KindOf(block + ":") == Header(block)
  {
    Space();
    assert StripRight(block + ":") == block + ":";
    KindExact(block + ":", block);
  }

  lemma {:induction false} SpacerKind(lines: seq<string>)
    ensures Kinds(Spacer(lines)) == [] || Kinds(Spacer(lines)) == [Inner]
  {
  }
}
