/** Installing Dovecot's generated files with backups, and undoing a partial run
    (src/lightr/dovecot/manage.py). */
module Install {
  import opened Text

  /** A directory tree: what each path holds. */
  type Files = map<string, string>

  /** Where a `write_atomic` call fails: reading the old file or copying it away,
      writing the temporary file, or once the new file is already in place. */
  datatype Fault = NoFault | AtBackup | AtRename | AfterRename

  /** One file to install, the time stamp its backup gets, the name its temporary
      file gets, and the failure it meets. */
  datatype Target = Target(path: string, content: string, stamp: string, temporary: string, fault: Fault) {
    function BackupName(): string { path + ".lightr-" + stamp + ".bak" }
  }

  /** An entry of the report; `backup` is None when nothing was there before. */
  datatype Change = Unchanged(path: string) | Written(path: string, backup: Option<string>)

  datatype Outcome = Current | Installed | Raised | Rejected

  /** A file that already holds what is asked for is not written. */
  predicate Differs(files: Files, t: Target) { !(t.path in files && files[t.path] == t.content) }

  // ----- what one write leaves

  /** The old file, if there is one, copied to its backup. */
  function BackedUp(files: Files, t: Target): Files {
    if t.path in files then files[t.BackupName() := files[t.path]] else files
  }

  function AfterWrite(files: Files, t: Target): Files {
    if Differs(files, t) then BackedUp(files, t)[t.path := t.content] else files
  }

  function ChangeOf(files: Files, t: Target): Change {
    if !Differs(files, t) then Unchanged(t.path)
    else Written(t.path, if t.path in files then Some(t.BackupName()) else None)
  }

  /** Whether the call raises: a failure after the comparison needs a file to write. */
  predicate Fails(files: Files, t: Target) {
    t.fault == AtBackup || (t.fault != NoFault && Differs(files, t))
  }

  /** What a call that raises leaves behind. */
  function AfterFailure(files: Files, t: Target): Files {
    match t.fault
    case AfterRename => AfterWrite(files, t)
    case AtRename => BackedUp(files, t)
    case _ => files
  }

  function AfterAll(files: Files, targets: seq<Target>): Files {
    if targets == [] then files else AfterWrite(AfterAll(files, targets[..|targets| - 1]), targets[|targets| - 1])
  }

  function ChangesOf(files: Files, targets: seq<Target>): seq<Change> {
    if targets == [] then []
    else
      var init := targets[..|targets| - 1];
      ChangesOf(files, init) + [ChangeOf(AfterAll(files, init), targets[|targets| - 1])]
  }

  /** Rollback of one entry. */
  function Undo(files: Files, c: Change): Files {
    match c
    case Unchanged(_) => files
    case Written(path, backup) =>
      if backup.Some? && backup.value in files then files[path := files[backup.value]] else files - {path}
  }

  /** The entries undone from the last to the first. */
  function UndoAll(files: Files, changes: seq<Change>): Files
    decreases |changes|
  {
    if changes == [] then files
    else UndoAll(Undo(files, changes[|changes| - 1]), changes[..|changes| - 1])
  }

  // ----- the installer

  class FileSystem {
    var files: Files

    constructor (initial: Files)
      ensures files == initial
    {
      files := initial;
    }

    /** `write_atomic`; None when it raises. */
    method WriteAtomic(t: Target) returns (change: Option<Change>)
      requires t.temporary !in files && t.temporary != t.path && t.temporary != t.BackupName()
      modifies this
      ensures Fails(old(files), t) ==> change == None && files == AfterFailure(old(files), t)
      ensures !Fails(old(files), t) ==> change == Some(ChangeOf(old(files), t)) && files == AfterWrite(old(files), t)
    {
      if t.fault == AtBackup { return None; }
      if t.path in files && files[t.path] == t.content { return Some(Unchanged(t.path)); }
      var backup: Option<string> := None;
      if t.path in files {
        var name := t.BackupName();
        files := files[name := files[t.path]];
        backup := Some(name);
      }
      ghost var copied := files;
      files := files[t.temporary := t.content];
      if t.fault == AtRename {
        files := files - {t.temporary};
        assert files == copied;
        return None;
      }
      files := (files - {t.temporary})[t.path := files[t.temporary]];
      assert files == copied[t.path := t.content];
      if t.fault == AfterRename { return None; }
      change := Some(Written(t.path, backup));
    }

    /** `rollback` */
    method Rollback(changes: seq<Change>)
      modifies this
      ensures files == UndoAll(old(files), changes)
    {
      var n := |changes|;
      assert changes[..n] == changes;
      while n > 0
        invariant 0 <= n <= |changes|
        invariant UndoAll(old(files), changes) == UndoAll(files, changes[..n])
      {
        n := n - 1;
        assert changes[..n + 1][..n] == changes[..n];
        if changes[n].Written? {
          var backup := changes[n].backup;
          if backup.Some? && backup.value in files {
            files := files[changes[n].path := files[backup.value]];
          } else {
            files := files - {changes[n].path};
          }
        }
      }
    }

    /** `install`: every file in turn; a failure, or a configuration Dovecot rejects,
        is rolled back. */
    method InstallAll(targets: seq<Target>, accepted: bool) returns (outcome: Outcome, changes: seq<Change>)
      requires Proper(files, targets)
      modifies this
      ensures outcome == Raised <==> exists n: nat :: FirstFailure(old(files), targets, n)
      ensures forall n: nat :: FirstFailure(old(files), targets, n) ==>
                (Agree(files, old(files), targets) <==> targets[n].fault != AfterRename)
      ensures outcome == Rejected ==> !accepted && Agree(files, old(files), targets)
      ensures outcome == Current <==> outcome != Raised && Holds(old(files), targets)
      ensures outcome == Current ==> files == old(files)
      ensures outcome == Installed ==> accepted && Holds(files, targets) && KeepsOld(files, old(files), targets)
      ensures outcome != Raised ==> Reports(changes, old(files), targets)
      ensures forall n: nat :: FirstFailure(old(files), targets, n) ==> Reports(changes, old(files), targets[..n])
    {
      hide *;
      ghost var before := files;
      changes := [];
      var written := false;
      NoTargets(before, targets);
      for n := 0 to |targets|
        invariant files == AfterAll(before, targets[..n])
        invariant changes == ChangesOf(before, targets[..n])
        invariant written <==> exists c :: c in changes && c.Written?
        invariant NoFailure(before, targets, n)
      {
        OneMore(before, targets, n);
        var change := WriteAtomic(targets[n]);
        if change.None? {
          Rollback(changes);
          RestoredIff(before, targets, n);
          OnlyFirst(before, targets, n);
          ReportExact(before, targets, n);
          return Raised, changes;
        }
        changes := changes + [change.value];
        written := written || change.value.Written?;
      }
      assert targets[..|targets|] == targets;
      NeverFails(before, targets);
      ReportExact(before, targets, |targets|);
      if !written {
        NothingWritten(before, targets);
        return Current, changes;
      }
      SomethingWritten(before, targets);
      if !accepted {
        Rollback(changes);
        RollbackRestores(before, targets);
        return Rejected, changes;
      }
      AllHold(before, targets);
      outcome := Installed;
    }
  }

  ghost predicate NoFailure(files: Files, targets: seq<Target>, n: nat) {
    n <= |targets| && forall m: nat :: m < n ==> !Fails(AfterAll(files, targets[..m]), targets[m])
  }

  /** The first call that raises. */
  ghost predicate FirstFailure(files: Files, targets: seq<Target>, n: nat) {
    && n < |targets| && NoFailure(files, targets, n)
    && Fails(AfterAll(files, targets[..n]), targets[n])
  }

  lemma {:induction false} NeverFails(files: Files, targets: seq<Target>)
    requires NoFailure(files, targets, |targets|)
    ensures !exists n: nat :: FirstFailure(files, targets, n)
  {
  }

  /** Distinct paths, and backup and temporary names that nothing else uses. */
  ghost predicate Proper(files: Files, targets: seq<Target>) {
    && (forall i, j :: 0 <= i < j < |targets| ==> targets[i].path != targets[j].path)
    && (forall i, j :: 0 <= i < j < |targets| ==> targets[i].BackupName() != targets[j].BackupName())
    && (forall i, j :: 0 <= i < |targets| && 0 <= j < |targets| ==> targets[i].BackupName() != targets[j].path)
    && (forall i, j :: 0 <= i < |targets| && 0 <= j < |targets| ==>
          targets[i].temporary != targets[j].path && targets[i].temporary != targets[j].BackupName())
    && (forall t :: t in targets ==> t.BackupName() !in files && t.temporary !in files)
  }

  /** The two trees hold the same files, backups aside. */
  ghost predicate Agree(a: Files, b: Files, targets: seq<Target>) {
    forall p :: !IsBackup(p, targets) ==> SameAt(a, b, p)
  }

  ghost predicate SameAt(a: Files, b: Files, p: string) { (p in a <==> p in b) && (p in a ==> a[p] == b[p]) }

  ghost predicate IsBackup(p: string, targets: seq<Target>) { exists t :: t in targets && p == t.BackupName() }

  ghost predicate IsPath(p: string, targets: seq<Target>) { exists t :: t in targets && p == t.path }

  ghost predicate Holds(files: Files, targets: seq<Target>) { forall t :: t in targets ==> !Differs(files, t) }

  /** Everything else is as it was, and what a target replaced is in its backup. */
  ghost predicate KeepsOld(files: Files, before: Files, targets: seq<Target>) {
    && (forall p :: !IsBackup(p, targets) && !IsPath(p, targets) ==> SameAt(files, before, p))
    && (forall t :: t in targets && t.path in before && Differs(before, t) ==>
          t.BackupName() in files && files[t.BackupName()] == before[t.path])
  }

  /** The report has one entry for each target, in order: unchanged exactly when the file
      already held its content, and otherwise with the name of its backup exactly when
      there was a file before. */
  ghost predicate Reports(changes: seq<Change>, before: Files, targets: seq<Target>) {
    |changes| == |targets| && forall i :: 0 <= i < |targets| ==> Reported(changes[i], before, targets[i])
  }

  ghost predicate Reported(c: Change, before: Files, t: Target) {
    c == if t.path in before && before[t.path] == t.content then Unchanged(t.path)
         else Written(t.path, if t.path in before then Some(t.path + ".lightr-" + t.stamp + ".bak") else None)
  }

  lemma {:induction false} ChangeReported(now: Files, before: Files, t: Target)
    requires SameAt(now, before, t.path)
    ensures Reported(ChangeOf(now, t), before, t)
  {
  }

  lemma {:induction false} ReportExact(files: Files, targets: seq<Target>, n: nat)
    requires Proper(files, targets) && n <= |targets|
    ensures Reports(ChangesOf(files, targets[..n]), files, targets[..n])
  {
    hide Proper, AfterAll, Reported, SameAt, ChangeOf;
    if n > 0 {
      var init := targets[..n - 1];
      ReportExact(files, targets, n - 1);
      BeforeTurn(files, targets, n - 1);
      assert targets[..n][..n - 1] == init;
      var now := AfterAll(files, init);
      assert ChangesOf(files, targets[..n]) == ChangesOf(files, init) + [ChangeOf(now, targets[n - 1])];
      ChangeReported(now, files, targets[n - 1]);
    }
  }

  // ----- what a run leaves

  lemma {:induction false} NoTargets(files: Files, targets: seq<Target>)
    ensures AfterAll(files, targets[..0]) == files && ChangesOf(files, targets[..0]) == [] && NoFailure(files, targets, 0)
  {
  }

  lemma {:induction false} ProperInit(files: Files, targets: seq<Target>)
    requires Proper(files, targets) && targets != []
    ensures Proper(files, targets[..|targets| - 1])
  {
  }

  /** Only the paths and backups of the targets are touched. */
  lemma {:induction false} Untouched(files: Files, targets: seq<Target>, p: string)
    requires !IsPath(p, targets) && !IsBackup(p, targets)
    ensures SameAt(AfterAll(files, targets), files, p)
  {
    if targets != [] {
      var init, last := targets[..|targets| - 1], targets[|targets| - 1];
      assert last in targets && forall t :: t in init ==> t in targets;
      assert p != last.path && p != last.BackupName();
      Untouched(files, init, p);
    }
  }

  /** A target is as it was until its turn, and its other names are unused. */
  lemma {:induction false} BeforeTurn(files: Files, targets: seq<Target>, n: nat)
    requires Proper(files, targets) && n < |targets|
    ensures var now := AfterAll(files, targets[..n]);
            var t := targets[n];
            SameAt(now, files, t.path) && t.temporary !in now && t.BackupName() !in now
            && t.temporary != t.path && t.temporary != t.BackupName() && t.path != t.BackupName()
            && !IsPath(t.path, targets[..n]) && !IsBackup(t.path, targets[..n])
            && !IsPath(t.BackupName(), targets[..n]) && !IsBackup(t.BackupName(), targets[..n])
  {
    var t, init := targets[n], targets[..n];
    assert t in targets;
    NotAmong(files, targets, n);
    Untouched(files, init, t.path);
    Untouched(files, init, t.temporary);
    Untouched(files, init, t.BackupName());
  }

  lemma {:induction false} NotAmong(files: Files, targets: seq<Target>, n: nat)
    requires Proper(files, targets) && n < |targets|
    ensures forall p :: p in [targets[n].path, targets[n].temporary, targets[n].BackupName()] ==>
              !IsPath(p, targets[..n]) && !IsBackup(p, targets[..n])
  {
    forall t | t in targets[..n]
      ensures t.path !in [targets[n].path, targets[n].temporary, targets[n].BackupName()]
      ensures t.BackupName() !in [targets[n].path, targets[n].temporary, targets[n].BackupName()]
    {
      var i :| 0 <= i < n && targets[i] == t;
    }
  }

  lemma {:induction false} OneMore(files: Files, targets: seq<Target>, n: nat)
    requires Proper(files, targets) && n < |targets| && NoFailure(files, targets, n)
    ensures var now := AfterAll(files, targets[..n]);
            var t := targets[n];
            && t.temporary !in now && t.temporary != t.path && t.temporary != t.BackupName()
            && AfterAll(files, targets[..n + 1]) == AfterWrite(now, t)
            && ChangesOf(files, targets[..n + 1]) == ChangesOf(files, targets[..n]) + [ChangeOf(now, t)]
            && (Fails(now, t) ==> FirstFailure(files, targets, n))
            && (!Fails(now, t) ==> NoFailure(files, targets, n + 1))
  {
    BeforeTurn(files, targets, n);
    assert targets[..n + 1][..n] == targets[..n];
  }

  lemma {:induction false} OnlyFirst(files: Files, targets: seq<Target>, n: nat)
    requires FirstFailure(files, targets, n)
    ensures forall m: nat :: FirstFailure(files, targets, m) ==> m == n
  {
  }

  // ----- undoing

  ghost predicate Avoids(changes: seq<Change>, p: string) {
    forall c :: c in changes ==> c.path != p && (c.Written? ==> c.backup != Some(p))
  }

  lemma {:induction false} ChangesAvoid(files: Files, targets: seq<Target>, p: string)
    requires !IsPath(p, targets) && !IsBackup(p, targets)
    ensures Avoids(ChangesOf(files, targets), p)
  {
    if targets != [] {
      assert targets[|targets| - 1] in targets && forall t :: t in targets[..|targets| - 1] ==> t in targets;
      ChangesAvoid(files, targets[..|targets| - 1], p);
    }
  }

  /** Undoing is blind to a file no entry names. */
  lemma {:induction false} UndoBeside(files: Files, changes: seq<Change>, p: string, content: string)
    requires Avoids(changes, p)
    ensures UndoAll(files[p := content], changes) == UndoAll(files, changes)[p := content]
    decreases |changes|
  {
    if changes != [] {
      var last := changes[|changes| - 1];
      assert last in changes;
      assert Undo(files[p := content], last) == Undo(files, last)[p := content];
      UndoBeside(Undo(files, last), changes[..|changes| - 1], p, content);
    }
  }

  /** Undoing one write leaves only its backup. */
  lemma {:induction false} UndoWrite(files: Files, t: Target)
    requires t.path != t.BackupName()
    ensures Undo(AfterWrite(files, t), ChangeOf(files, t)) == if Differs(files, t) then BackedUp(files, t) else files
  {
  }

  /** Rolling back a whole run restores every file, backups aside. */
  lemma {:induction false} RollbackRestores(files: Files, targets: seq<Target>)
    requires Proper(files, targets)
    ensures Agree(UndoAll(AfterAll(files, targets), ChangesOf(files, targets)), files, targets)
  {
    if targets != [] {
      var n := |targets| - 1;
      var init, last := targets[..n], targets[n];
      var now := AfterAll(files, init);
      BeforeTurn(files, targets, n);
      ProperInit(files, targets);
      RollbackRestores(files, init);
      UndoLast(files, targets);
      UndoBackedUp(files, targets, n);
      MoreBackups(UndoAll(now, ChangesOf(files, init)), files, targets, n, if last.path in now then now[last.path] else "");
    }
  }

  lemma {:induction false} UndoLast(files: Files, targets: seq<Target>)
    requires Proper(files, targets) && targets != []
    ensures var n := |targets| - 1;
            var now := AfterAll(files, targets[..n]);
            UndoAll(AfterAll(files, targets), ChangesOf(files, targets))
            == UndoAll(if Differs(now, targets[n]) then BackedUp(now, targets[n]) else now, ChangesOf(files, targets[..n]))
  {
    var n := |targets| - 1;
    BeforeTurn(files, targets, n);
    var now, t := AfterAll(files, targets[..n]), targets[n];
    UndoWrite(now, t);
    var changes := ChangesOf(files, targets);
    assert changes == ChangesOf(files, targets[..n]) + [ChangeOf(now, t)];
    assert changes[..|changes| - 1] == ChangesOf(files, targets[..n]);
  }

  /** A fresh backup survives the undoing of the earlier entries and changes nothing
      about it. */
  lemma {:induction false} UndoBackedUp(files: Files, targets: seq<Target>, n: nat)
    requires Proper(files, targets) && n < |targets|
    ensures var now := AfterAll(files, targets[..n]);
            var t := targets[n];
            var changes := ChangesOf(files, targets[..n]);
            UndoAll(BackedUp(now, t), changes)
            == if t.path in now then UndoAll(now, changes)[t.BackupName() := now[t.path]] else UndoAll(now, changes)
  {
    var now, t := AfterAll(files, targets[..n]), targets[n];
    BeforeTurn(files, targets, n);
    if t.path in now {
      ChangesAvoid(files, targets[..n], t.BackupName());
      UndoBeside(now, ChangesOf(files, targets[..n]), t.BackupName(), now[t.path]);
    }
  }

  lemma {:induction false} MoreBackups(a: Files, b: Files, targets: seq<Target>, n: nat, content: string)
    requires n < |targets| && Agree(a, b, targets[..n])
    ensures Agree(a, b, targets)
    ensures Agree(a[targets[n].BackupName() := content], b, targets)
  {
    forall p | !IsBackup(p, targets) ensures SameAt(a, b, p) && p != targets[n].BackupName() {
      assert targets[n] in targets && forall t :: t in targets[..n] ==> t in targets;
      assert !IsBackup(p, targets[..n]);
    }
  }

  lemma {:induction false} ProperPrefix(files: Files, targets: seq<Target>, n: nat)
    requires Proper(files, targets) && n <= |targets|
    ensures Proper(files, targets[..n])
  {
  }

  /** After a failure and its rollback every file is as it was, if and only if the
      failure did not come after the rename: then the file is in place but not in the
      report. */
  lemma {:induction false} RestoredIff(files: Files, targets: seq<Target>, n: nat)
    requires Proper(files, targets) && FirstFailure(files, targets, n)
    ensures var now := AfterAll(files, targets[..n]);
            var undone := UndoAll(AfterFailure(now, targets[n]), ChangesOf(files, targets[..n]));
            Agree(undone, files, targets) <==> targets[n].fault != AfterRename
  {
    var now, t, changes := AfterAll(files, targets[..n]), targets[n], ChangesOf(files, targets[..n]);
    BeforeTurn(files, targets, n);
    ProperPrefix(files, targets, n);
    RollbackRestores(files, targets[..n]);
    UndoBackedUp(files, targets, n);
    MoreBackups(UndoAll(now, changes), files, targets, n, if t.path in now then now[t.path] else "");
    if t.fault == AfterRename {
      ChangesAvoid(files, targets[..n], t.path);
      UndoBeside(BackedUp(now, t), changes, t.path, t.content);
      NotABackup(files, targets, n);
      hide UndoAll, AfterAll, ChangesOf, Proper;
      var undone := UndoAll(AfterFailure(now, t), changes);
      assert undone[t.path] == t.content;
      assert !SameAt(undone, files, t.path);
    }
  }

  lemma {:induction false} NotABackup(files: Files, targets: seq<Target>, n: nat)
    requires Proper(files, targets) && n < |targets|
    ensures !IsBackup(targets[n].path, targets)
  {
    forall t | t in targets ensures t.BackupName() != targets[n].path {
      var i :| 0 <= i < |targets| && targets[i] == t;
    }
  }

  // ----- a run that succeeds

  lemma {:induction false} NothingWritten(files: Files, targets: seq<Target>)
    requires forall c :: c in ChangesOf(files, targets) ==> c.Unchanged?
    ensures AfterAll(files, targets) == files && Holds(files, targets)
  {
    if targets != [] {
      var init, last := targets[..|targets| - 1], targets[|targets| - 1];
      var changes := ChangesOf(files, targets);
      assert changes == ChangesOf(files, init) + [ChangeOf(AfterAll(files, init), last)];
      assert changes[|changes| - 1] in changes;
      NothingWritten(files, init);
      assert targets == init + [last];
    }
  }

  /** A run where nothing differs writes nothing. */
  lemma {:induction false} NothingDiffers(files: Files, targets: seq<Target>)
    requires Holds(files, targets)
    ensures AfterAll(files, targets) == files && forall c :: c in ChangesOf(files, targets) ==> c.Unchanged?
  {
    if targets != [] {
      var init, last := targets[..|targets| - 1], targets[|targets| - 1];
      assert last in targets && forall t :: t in init ==> t in targets;
      NothingDiffers(files, init);
    }
  }

  lemma {:induction false} SomethingWritten(files: Files, targets: seq<Target>)
    requires exists c :: c in ChangesOf(files, targets) && c.Written?
    ensures !Holds(files, targets)
  {
    if Holds(files, targets) { NothingDiffers(files, targets); }
  }

  /** After a whole run every target holds its content, what it replaced is in its
      backup, and nothing else changed. */
  lemma {:induction false} AllHold(files: Files, targets: seq<Target>)
    requires Proper(files, targets)
    ensures Holds(AfterAll(files, targets), targets) && KeepsOld(AfterAll(files, targets), files, targets)
  {
    forall p | !IsBackup(p, targets) && !IsPath(p, targets) ensures SameAt(AfterAll(files, targets), files, p) {
      Untouched(files, targets, p);
    }
    forall t | t in targets
      ensures !Differs(AfterAll(files, targets), t)
      ensures t.path in files && Differs(files, t) ==>
                t.BackupName() in AfterAll(files, targets) && AfterAll(files, targets)[t.BackupName()] == files[t.path]
    {
      var n :| 0 <= n < |targets| && targets[n] == t;
      TargetHolds(files, targets, n, |targets|);
      assert targets[..|targets|] == targets;
    }
  }

  /** What a target's turn leaves in place. */
  ghost predicate InPlace(now: Files, files: Files, t: Target) {
    && t.path in now && now[t.path] == t.content
    && (t.path in files && Differs(files, t) ==> t.BackupName() in now && now[t.BackupName()] == files[t.path])
  }

  lemma {:induction false} WritePlaces(now: Files, files: Files, t: Target)
    requires SameAt(now, files, t.path) && t.path != t.BackupName()
    ensures InPlace(AfterWrite(now, t), files, t)
  {
  }

  lemma {:induction false} WriteKeepsPlaced(now: Files, files: Files, t: Target, other: Target)
    requires InPlace(now, files, t)
    requires t.path != other.path && t.path != other.BackupName()
    requires t.BackupName() != other.path && t.BackupName() != other.BackupName()
    ensures InPlace(AfterWrite(now, other), files, t)
  {
  }

  lemma {:induction false} TargetHolds(files: Files, targets: seq<Target>, n: nat, end: nat)
    requires Proper(files, targets) && n < end <= |targets|
    ensures InPlace(AfterAll(files, targets[..end]), files, targets[n])
    decreases end
  {
    assert targets[..end][..end - 1] == targets[..end - 1];
    if n < end - 1 {
      TargetHolds(files, targets, n, end - 1);
      hide InPlace, AfterWrite;
      WriteKeepsPlaced(AfterAll(files, targets[..end - 1]), files, targets[n], targets[end - 1]);
    } else {
      BeforeTurn(files, targets, n);
      hide InPlace, AfterWrite, Proper, SameAt;
      WritePlaces(AfterAll(files, targets[..n]), files, targets[n]);
    }
  }

  /** A failure after the rename leaves the new file behind. */
  lemma {:induction false} LateFailureStays()
    ensures var targets := [Target("dovecot.conf", "new", "20260101000000", ".lightr-1.tmp", AfterRename)];
            Proper(map[], targets) && FirstFailure(map[], targets, 0)
            && "dovecot.conf" in UndoAll(AfterFailure(AfterAll(map[], targets[..0]), targets[0]), ChangesOf(map[], targets[..0]))
  {
    var t := Target("dovecot.conf", "new", "20260101000000", ".lightr-1.tmp", AfterRename);
    var targets := [t];
    assert t.BackupName()[12] == '.';
    assert |t.BackupName()| > |t.path| && |t.BackupName()| > |t.temporary|;
    assert |t.path| != |t.temporary|;
    assert targets[..0] == [];
  }
}
