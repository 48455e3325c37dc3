/** A configuration file on disk, edited in place (src/lightr/configtemplate.py). */
module ConfigFile {
  import opened Text
  import opened ConfigEdit
  import opened ConfigKeeps

  ghost predicate Distinct(entries: seq<Entry>) {
    forall i, j :: 0 <= i < j < |entries| ==> entries[i].key != entries[j].key
  }

  /** The requested settings: a dictionary from keys to values that render to one
      line. */
  ghost predicate Proper(entries: seq<Entry>) {
    (forall e :: e in entries ==> ProperEntry(e)) && Distinct(entries)
  }

  /** Where a line of the old file is after an edit. */
  function Moved(lines: seq<string>, e: Entry, i: nat): nat { MoveBy(Insertion(Kinds(lines), e.key), i) }

  /** Where each edit of a run puts a line in. */
  function Insertions(lines: seq<string>, entries: seq<Entry>): seq<Option<nat>>
    decreases |entries|
  {
    if entries == [] then []
    else [Insertion(Kinds(lines), entries[0].key)] + Insertions(Edit(lines, entries[0]), entries[1..])
  }

  function MoveThrough(ps: seq<Option<nat>>, i: nat): nat
    decreases |ps|
  {
    if ps == [] then i else MoveThrough(ps[1..], MoveBy(ps[0], i))
  }

  /** Where a line of the old file is after a run. */
  function MovedAll(lines: seq<string>, entries: seq<Entry>, i: nat): nat {
    MoveThrough(Insertions(lines, entries), i)
  }

  lemma {:induction false} MovedCons(lines: seq<string>, entries: seq<Entry>, i: nat)
    ensures MovedAll(lines, entries, i) ==
      if entries == [] then i else MovedAll(Edit(lines, entries[0]), entries[1..], Moved(lines, entries[0], i))
  {
    hide Edit, Kinds, Insertion;
    if entries != [] {
      var p, rest := Insertion(Kinds(lines), entries[0].key), Insertions(Edit(lines, entries[0]), entries[1..]);
      assert ([p] + rest)[1..] == rest;
    }
  }

  function At(lines: seq<string>, k: Key): Option<nat> { Find(Kinds(lines), k) }

  // ----- one edit

  lemma {:induction false} EditPlace(lines: seq<string>, e: Entry)
    ensures var place := Place(Kinds(lines), Kinds(Spacer(lines)), e.key);
            place < |Edit(lines, e)| && Edit(lines, e)[place] == Wanted(e)
  {
    hide First, FindIn, Wanted, KindOf, Spacer;
  }

  lemma {:induction false} EditFinds(lines: seq<string>, e: Entry)
    requires ProperEntry(e)
    ensures Read(Edit(lines, e), e.key) == Some(Wanted(e))
  {
    var spacer := EditKinds(lines, e);
    KindsFind(Kinds(lines), spacer, e.key);
    EditPlace(lines, e);
    hide First, FindIn, Find, Kinds, Edit, EditedKinds, Place, Spacer, Wanted, ProperEntry;
  }

  lemma {:induction false} EditMoves(lines: seq<string>, e: Entry, other: Key)
    requires ProperEntry(e) && other != e.key
    ensures At(Edit(lines, e), other) == MoveFound(Insertion(Kinds(lines), e.key), At(lines, other))
  {
    var spacer := EditKinds(lines, e);
    KindsKeep(Kinds(lines), spacer, e.key, other);
  }

  lemma {:induction false} EditKeepsLine(lines: seq<string>, e: Entry, i: nat)
    requires i < |lines|
    ensures Moved(lines, e, i) < |Edit(lines, e)|
    ensures At(lines, e.key) != Some(i) ==> Edit(lines, e)[Moved(lines, e, i)] == lines[i]
  {
    hide First, FindIn, Wanted, Kinds, Spacer;
    EditUnfold(lines, e);
    hide Edit;
  }

  lemma {:induction false} EditReads(lines: seq<string>, e: Entry, other: Key)
    requires ProperEntry(e) && other != e.key
    ensures Read(Edit(lines, e), other) == Read(lines, other)
  {
    EditMoves(lines, e, other);
    var at := At(lines, other);
    if at.Some? {
      EditKeepsLine(lines, e, at.value);
      if At(lines, e.key) == at { SameLine(lines, other, e.key); }
    }
    hide Edit, Kinds, Find;
  }

  /** One line does not hold two settings. */
  lemma {:induction false} SameLine(lines: seq<string>, a: Key, b: Key)
    requires At(lines, a).Some? && At(lines, a) == At(lines, b)
    ensures a == b
  {
    var ks := Kinds(lines);
    hide Kinds;
    var i := At(lines, a).value;
    assert ks[i] == KindFor(a) == KindFor(b);
    if a.setting != "" {
      InOneBlock(ks, First(ks, Header(a.block)).value, First(ks, Header(b.block)).value, a.setting, i);
    }
  }

  lemma {:induction false} InOneBlock(ks: seq<Kind>, h: nat, h': nat, setting: string, i: nat)
    requires h < |ks| && h' < |ks| && TopKind(ks[h]) && TopKind(ks[h'])
    requires FindIn(ks, setting, h + 1) == Some(i) && FindIn(ks, setting, h' + 1) == Some(i)
    ensures h == h'
  {
    NoTopBetween(ks, setting, h + 1);
    NoTopBetween(ks, setting, h' + 1);
  }

  lemma {:induction false} NoTopBetween(ks: seq<Kind>, setting: string, i: nat)
    ensures FindIn(ks, setting, i).Some? ==> forall j :: i <= j < FindIn(ks, setting, i).value ==> !TopKind(ks[j])
    decreases |ks| - i
  {
    if i < |ks| { NoTopBetween(ks, setting, i + 1); }
  }

  // ----- a whole run

  /** Every other setting reads as before. */
  lemma {:induction false} OthersRead(lines: seq<string>, entries: seq<Entry>, other: Key)
    requires Proper(entries) && forall e :: e in entries ==> e.key != other
    ensures Read(EditAll(lines, entries), other) == Read(lines, other)
    decreases |entries|
  {
    hide Edit, Read, ProperEntry;
    if entries != [] {
      assert entries[0] in entries;
      EditReads(lines, entries[0], other);
      OthersRead(Edit(lines, entries[0]), entries[1..], other);
    }
  }

  /** Every requested setting reads back as the requested line. */
  lemma {:induction false} RequestedRead(lines: seq<string>, entries: seq<Entry>, e: Entry)
    requires Proper(entries) && e in entries
    ensures Read(EditAll(lines, entries), e.key) == Some(Wanted(e))
    decreases |entries|
  {
    hide Edit, Read, Wanted, ProperEntry;
    var lines' := Edit(lines, entries[0]);
    if e == entries[0] {
      EditFinds(lines, e);
      assert forall i :: 1 <= i < |entries| ==> entries[i].key != entries[0].key;
      OthersRead(lines', entries[1..], e.key);
    } else {
      assert e in entries[1..];
      RequestedRead(lines', entries[1..], e);
    }
  }

  lemma {:induction false} FoundElsewhere(lines: seq<string>, e: Entry, other: Key, i: nat)
    requires ProperEntry(e) && other != e.key && At(lines, other) != Some(i)
    ensures At(Edit(lines, e), other) != Some(Moved(lines, e, i))
  {
    assert Moved(lines, e, i) == MoveBy(Insertion(Kinds(lines), e.key), i);
    hide *;
    EditMoves(lines, e, other);
    MoveInjective(Insertion(Kinds(lines), e.key), At(lines, other), i);
  }

  lemma {:induction false} MoveInjective(p: Option<nat>, a: Option<nat>, i: nat)
    requires a != Some(i)
    ensures MoveFound(p, a) != Some(MoveBy(p, i))
  {
  }

  /** Every line of the old file that held no requested setting is still there,
      unchanged. */
  lemma {:induction false} LinesKept(lines: seq<string>, entries: seq<Entry>, i: nat)
    requires Proper(entries) && i < |lines|
    ensures MovedAll(lines, entries, i) < |EditAll(lines, entries)|
    ensures (forall e :: e in entries ==> At(lines, e.key) != Some(i))
      ==> EditAll(lines, entries)[MovedAll(lines, entries, i)] == lines[i]
    decreases |entries|
  {
    MovedCons(lines, entries, i);
    hide Edit, At, Moved, MovedAll, ProperEntry;
    if entries != [] {
      var first, rest := entries[0], entries[1..];
      assert first in entries;
      EditKeepsLine(lines, first, i);
      LinesKept(Edit(lines, first), rest, Moved(lines, first, i));
      if forall e :: e in entries ==> At(lines, e.key) != Some(i) {
        forall e | e in rest ensures At(Edit(lines, first), e.key) != Some(Moved(lines, first, i)) {
          assert e in entries && e.key != first.key;
          FoundElsewhere(lines, first, e.key, i);
        }
      }
    }
  }

  /** No two lines of the old file change places. */
  lemma {:induction false} OrderKept(ps: seq<Option<nat>>, i: nat, j: nat)
    requires i < j
    ensures MoveThrough(ps, i) < MoveThrough(ps, j)
    decreases |ps|
  {
    if ps != [] { OrderKept(ps[1..], MoveBy(ps[0], i), MoveBy(ps[0], j)); }
  }

  function Count(ks: seq<Kind>, k: Kind): nat {
    if ks == [] then 0 else (if ks[0] == k then 1 else 0) + Count(ks[1..], k)
  }

  /** How many times a block's header stands in the file. */
  function Headers(lines: seq<string>, block: string): nat { Count(Kinds(lines), Header(block)) }

  lemma {:induction false} CountConcat(a: seq<Kind>, b: seq<Kind>, k: Kind)
    ensures Count(a + b, k) == Count(a, k) + Count(b, k)
  {
    if a == [] {
      assert a + b == b;
    } else {
      assert (a + b)[1..] == a[1..] + b;
      CountConcat(a[1..], b, k);
    }
  }

  lemma {:induction false} CountNone(ks: seq<Kind>, k: Kind)
    ensures Count(ks, k) == 0 <==> First(ks, k).None?
  {
    if ks != [] { CountNone(ks[1..], k); }
  }

  lemma {:induction false} CountInserted(ks: seq<Kind>, p: nat, x: Kind, k: Kind)
    requires p <= |ks| && x != k
    ensures Count(ks[..p] + [x] + ks[p..], k) == Count(ks, k)
  {
    CountConcat(ks[..p], [x], k);
    CountConcat(ks[..p] + [x], ks[p..], k);
    CountConcat(ks[..p], ks[p..], k);
    assert ks[..p] + ks[p..] == ks;
  }

  lemma {:induction false} CountAppended(ks: seq<Kind>, spacer: seq<Kind>, k: Key, block: string)
    requires spacer in [[], [Inner]]
    ensures Count(ks + spacer + [Header(k.block), Setting(k.setting)], Header(block))
         == Count(ks, Header(block)) + (if k.block == block then 1 else 0)
  {
    CountConcat(ks, spacer, Header(block));
    CountConcat(ks + spacer, [Header(k.block), Setting(k.setting)], Header(block));
    assert [Header(k.block), Setting(k.setting)][1..] == [Setting(k.setting)];
    CountOne(Header(k.block), Header(block));
    CountOne(Setting(k.setting), Header(block));
    CountOne(Inner, Header(block));
  }

  lemma {:induction false} CountOne(x: Kind, k: Kind)
    ensures Count([], k) == 0 && Count([x], k) == if x == k then 1 else 0
  {
    assert [x][1..] == [];
  }

  lemma {:induction false} CountEdited(ks: seq<Kind>, spacer: seq<Kind>, k: Key, block: string)
    requires spacer in [[], [Inner]]
    ensures var n, n' := Count(ks, Header(block)), Count(EditedKinds(ks, spacer, k), Header(block));
            n' == n || (k.block == block && k.setting != "" && n == 0 && n' == 1)
  {
    CountNone(ks, Header(block));
    hide First, FindIn, Count;
    if Find(ks, k).None? {
      match Insertion(ks, k)
      case Some(p) => CountInserted(ks, p, KindFor(k), Header(block));
      case None => CountAppended(ks, spacer, k, block);
    }
  }

  /** An edit adds a header only for its own block, and only when there is none. */
  lemma {:induction false} EditHeaders(lines: seq<string>, e: Entry, block: string)
    requires ProperEntry(e)
    ensures Headers(Edit(lines, e), block) == Headers(lines, block)
      || (e.key.block == block && e.key.setting != "" && Headers(lines, block) == 0 && Headers(Edit(lines, e), block) == 1)
  {
    var spacer := EditKinds(lines, e);
    CountEdited(Kinds(lines), spacer, e.key, block);
    hide Kinds, Edit, EditedKinds, Count, Spacer, ProperEntry;
  }

  /** No block gets a second header: a run leaves the headers as they were, or gives
      a block that had none one. */
  lemma {:induction false} HeadersKept(lines: seq<string>, entries: seq<Entry>, block: string)
    requires Proper(entries)
    ensures Headers(EditAll(lines, entries), block) == Headers(lines, block)
      || (Headers(lines, block) == 0 && Headers(EditAll(lines, entries), block) == 1)
    decreases |entries|
  {
    hide Edit, Headers, ProperEntry;
    if entries != [] {
      assert entries[0] in entries;
      EditHeaders(lines, entries[0], block);
      HeadersKept(Edit(lines, entries[0]), entries[1..], block);
    }
  }

  /** Settings that already read as requested are not touched. */
  lemma {:induction false} NothingToChange(lines: seq<string>, entries: seq<Entry>)
    requires forall e :: e in entries ==> Read(lines, e.key) == Some(Wanted(e))
    ensures EditAll(lines, entries) == lines && Changed(lines, entries) == []
    decreases |entries|
  {
    hide Kinds, Find, Wanted;
    if entries != [] {
      assert entries[0] in entries;
      assert Edit(lines, entries[0]) == lines;
      NothingToChange(lines, entries[1..]);
    }
  }

  /** The settings reported are those whose edit changed the file; a run that reports
      none left the lines alone. */
  lemma {:induction false} NoneChanged(lines: seq<string>, entries: seq<Entry>)
    ensures Changed(lines, entries) == [] ==> EditAll(lines, entries) == lines
    decreases |entries|
  {
    hide Edit;
    if entries != [] { NoneChanged(Edit(lines, entries[0]), entries[1..]); }
  }

  /** The requested settings that do not read as requested, in order. */
  function Differing(lines: seq<string>, entries: seq<Entry>): seq<string> {
    if entries == [] then []
    else (if Read(lines, entries[0].key) == Some(Wanted(entries[0])) then [] else [Name(entries[0].key)])
         + Differing(lines, entries[1..])
  }

  lemma {:induction false} EditedIffDiffers(lines: seq<string>, e: Entry)
    ensures Edit(lines, e) == lines <==> Read(lines, e.key) == Some(Wanted(e))
  {
    EditUnfold(lines, e);
    hide Edit, Kinds, Find, Wanted;
  }

  lemma {:induction false} DifferingSame(lines: seq<string>, lines': seq<string>, entries: seq<Entry>)
    requires forall e :: e in entries ==> Read(lines, e.key) == Read(lines', e.key)
    ensures Differing(lines, entries) == Differing(lines', entries)
  {
    hide Read, Wanted;
    if entries != [] {
      assert entries[0] in entries && forall e :: e in entries[1..] ==> e in entries;
      DifferingSame(lines, lines', entries[1..]);
    }
  }

  /** A run reports exactly the settings that did not read as requested before it. */
  lemma {:induction false} ChangedExactly(lines: seq<string>, entries: seq<Entry>)
    requires Proper(entries)
    ensures Changed(lines, entries) == Differing(lines, entries)
    decreases |entries|
  {
    hide Edit, Read, Wanted, ProperEntry;
    if entries != [] {
      var lines' := Edit(lines, entries[0]);
      assert entries[0] in entries;
      EditedIffDiffers(lines, entries[0]);
      ChangedExactly(lines', entries[1..]);
      forall e | e in entries[1..] ensures Read(lines, e.key) == Read(lines', e.key) {
        var i :| 0 <= i < |entries[1..]| && entries[1..][i] == e;
        assert entries[i + 1] == e;
        EditReads(lines, entries[0], e.key);
      }
      DifferingSame(lines, lines', entries[1..]);
    }
  }

  // ----- the file's text

  function LinesOf(text: Option<string>): seq<string> {
    match text case None => [] case Some(t) => SplitLines(t)
  }

  ghost predicate Unbroken(lines: seq<string>) { forall line :: line in lines ==> forall c :: c in line ==> !IsBreak(c) }

  lemma {:induction false} SplitWritten(lines: seq<string>)
    requires lines != [] && Unbroken(lines)
    ensures SplitLines(Join("\n", lines) + "\n") == lines
  {
    UnbrokenCons(lines);
    hide *;
    JoinCons(lines);
    if |lines| == 1 {
      SplitFirstLine(lines[0], "");
      NothingMore(lines[0] + "\n");
      assert lines == [lines[0]];
      NoLines();
    } else {
      SplitWritten(lines[1..]);
      var first, rest := lines[0], Join("\n", lines[1..]);
      Associate(first, "\n", rest, "\n");
      SplitFirstLine(first, rest + "\n");
      assert lines == [first] + lines[1..];
    }
  }

  lemma {:induction false} NothingMore(s: string)
    ensures s + "" == s
  {
  }

  lemma {:induction false} NoLines()
    ensures SplitLines("") == []
  {
  }

  lemma {:induction false} JoinCons(lines: seq<string>)
    requires lines != []
    ensures Join("\n", lines) == if |lines| == 1 then lines[0] else lines[0] + "\n" + Join("\n", lines[1..])
  {
  }

  lemma {:induction false} UnbrokenCons(lines: seq<string>)
    requires lines != [] && Unbroken(lines)
    ensures Unbroken(lines[1..]) && forall c :: c in lines[0] ==> !IsBreak(c)
  {
    assert lines[0] in lines && forall line :: line in lines[1..] ==> line in lines;
  }

  lemma {:induction false} WantedUnbroken(e: Entry)
    requires ProperEntry(e)
    ensures Unbroken([Wanted(e), e.key.block + ":"])
  {
    Separators();
    hide IsBreak, IsSpace;
  }

  lemma {:induction false} Separators()
    ensures !IsBreak(':') && !IsBreak(' ')
  {
  }

  lemma {:induction false} EditLines(lines: seq<string>, e: Entry, line: string)
    requires line in Edit(lines, e)
    ensures line in lines || line == "" || line in [Wanted(e), e.key.block + ":"]
  {
    hide Kinds, Find, First, Wanted, Strip;
  }

  lemma {:induction false} EditUnbroken(lines: seq<string>, e: Entry)
    requires ProperEntry(e) && Unbroken(lines)
    ensures Unbroken(Edit(lines, e))
  {
    WantedUnbroken(e);
    hide IsBreak, Edit, Wanted;
    forall line | line in Edit(lines, e) ensures forall c :: c in line ==> !IsBreak(c) { EditLines(lines, e, line); }
  }

  lemma {:induction false} AllUnbroken(lines: seq<string>, entries: seq<Entry>)
    requires Proper(entries) && Unbroken(lines)
    ensures Unbroken(EditAll(lines, entries))
    decreases |entries|
  {
    hide Edit, Unbroken, ProperEntry;
    if entries != [] {
      assert entries[0] in entries;
      EditUnbroken(lines, entries[0]);
      AllUnbroken(Edit(lines, entries[0]), entries[1..]);
    }
  }

  /** The file after a run. */
  function Written(text: Option<string>, entries: seq<Entry>): Option<string> {
    if Changed(LinesOf(text), entries) == [] then text
    else Some(Join("\n", EditAll(LinesOf(text), entries)) + "\n")
  }

  class File {
    /** The file's text, or None when there is no file. */
    var text: Option<string>

    constructor (initial: Option<string>)
      ensures text == initial
    {
      text := initial;
    }

    /** `set_values` */
    method SetValues(entries: seq<Entry>) returns (changed: seq<string>)
      requires Proper(entries)
      modifies this
      ensures changed == Changed(LinesOf(old(text)), entries)
      ensures text == Written(old(text), entries)
    {
      var lines;
      lines, changed := SetLines(LinesOf(text), entries);
      if changed == [] { return []; }
      text := Some(Join("\n", lines) + "\n");
    }
  }

  /** Reading the file a run wrote gives the lines it meant to write. */
  lemma {:induction false} WrittenLines(text: Option<string>, entries: seq<Entry>)
    requires Proper(entries)
    ensures LinesOf(Written(text, entries)) == EditAll(LinesOf(text), entries)
  {
    hide SplitLines, Join, Edit;
    var lines := LinesOf(text);
    if Changed(lines, entries) == [] {
      NoneChanged(lines, entries);
    } else {
      var lines' := EditAll(lines, entries);
      AllUnbroken(lines, entries);
      if lines' == [] {
        RequestedRead(lines, entries, entries[0]);
      }
      SplitWritten(lines');
    }
  }

  /** A second run with the same settings reports nothing and leaves the file's text
      as it is. */
  lemma {:induction false} SecondRun(text: Option<string>, entries: seq<Entry>)
    requires Proper(entries)
    ensures Changed(LinesOf(Written(text, entries)), entries) == []
    ensures Written(Written(text, entries), entries) == Written(text, entries)
  {
    hide Edit, Read, LinesOf;
    WrittenLines(text, entries);
    var lines := EditAll(LinesOf(text), entries);
    forall e | e in entries ensures Read(lines, e.key) == Some(Wanted(e)) { RequestedRead(LinesOf(text), entries, e); }
    NothingToChange(lines, entries);
  }
}
