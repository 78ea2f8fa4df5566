/**
  The undo log of post-install steps. Every step records how to take itself back; a rollback replays
  the records last-first. The log is recoverable when that replay gives back the initial tree.
 */
module StepJournals {
  import opened Text
  import opened FileTree
  import opened FileSystems

  datatype Inverse =
    | Remove(path: Path)
    | Replace(path: Path, backup: Path)
    | Restore(path: Path, backup: Path)
    | MoveBack(source: Path, destination: Path)
    | Mode(path: Path, mode: nat)

  // ----- what replaying a record does to a tree -----

  function PutBack(t: Tree, from: Path, to: Path): Option<Tree> {
    if from !in t then Some(t)
    else if CanRename(t, from, to) then Some(Renamed(t, from, to))
    else None
  }

  /** The tree after one record has been replayed without a fault, if the replay can succeed. */
  function Undo(t: Tree, inverse: Inverse): Option<Tree> {
    match inverse
    case Remove(path) => if path == [] then None else Some(Without(t, path))
    case Replace(path, backup) => if path == [] then None else PutBack(Without(t, path), backup, path)
    case Restore(path, backup) => PutBack(t, backup, path)
    case MoveBack(source, destination) => PutBack(t, destination, source)
    case Mode(path, mode) =>
      if path !in t then Some(t) else if CanChmod(t, path) then Some(Chmod(t, path, mode)) else None
  }

  function UndoAll(t: Tree, inverses: seq<Inverse>): Option<Tree>
    decreases |inverses|
  {
    if inverses == [] then Some(t)
    else
      match Undo(t, inverses[|inverses| - 1])
      case None => None
      case Some(t') => UndoAll(t', inverses[..|inverses| - 1])
  }

  lemma UndoAllOfPush(t: Tree, inverses: seq<Inverse>, inverse: Inverse)
    ensures UndoAll(t, inverses + [inverse]) ==
            (match Undo(t, inverse) case None => None case Some(t') => UndoAll(t', inverses))
  {}

  lemma UndoWellFormed(t: Tree, inverse: Inverse)
    requires WellFormed(t) && Undo(t, inverse).Some?
    ensures WellFormed(Undo(t, inverse).value)
  {
    match inverse
    case Remove(path) =>
      WithoutWellFormed(t, path);
    case Replace(path, backup) =>
      WithoutWellFormed(t, path);
      PutBackWellFormed(Without(t, path), backup, path);
    case Restore(path, backup) =>
      PutBackWellFormed(t, backup, path);
    case MoveBack(source, destination) =>
      PutBackWellFormed(t, destination, source);
    case Mode(path, mode) =>
      if path in t {
        ReplaceWellFormed(t, path, Chmod(t, path, mode)[path]);
      }
  }

  lemma PutBackWellFormed(t: Tree, from: Path, to: Path)
    requires WellFormed(t) && PutBack(t, from, to).Some?
    ensures WellFormed(PutBack(t, from, to).value)
  {
    if from in t {
      RenameWellFormed(t, from, to);
    }
  }

  // ----- the journal directory -----

  /** The name of a backup: the step's index and a serial number. */
  function BackupName(index: nat, serial: nat): string {
    Decimal(index) + "-" + Decimal(serial)
  }

  function BackupPath(journalDir: Path, index: nat, serial: nat): Path {
    journalDir + [BackupName(index, serial)]
  }

  lemma BackupPathsDiffer(journalDir: Path, index: nat, serial: nat, index': nat, serial': nat)
    requires BackupPath(journalDir, index, serial) == BackupPath(journalDir, index', serial')
    ensures index == index' && serial == serial'
  {
    var p := BackupPath(journalDir, index, serial);
    assert p[|journalDir|] == BackupName(index, serial);
    assert p[|journalDir|] == BackupName(index', serial');
    DashSplit(Decimal(index), Decimal(serial), Decimal(index'), Decimal(serial'));
    DecimalInjective(index, index');
    DecimalInjective(serial, serial');
  }

  ghost predicate FreshBackups(t: Tree, journalDir: Path, next: nat) {
    forall index: nat, serial: nat | next <= serial :: BackupPath(journalDir, index, serial) !in t
  }

  /** Paths of the formula are apart from the journal directory, and backups lie inside it. */
  ghost predicate Confined(inverse: Inverse, journalDir: Path) {
    match inverse
    case Remove(path) => Apart(path, journalDir)
    case Replace(path, backup) => Apart(path, journalDir) && journalDir < backup
    case Restore(path, backup) => Apart(path, journalDir) && journalDir < backup
    case MoveBack(source, destination) => Apart(source, journalDir) && Apart(destination, journalDir)
    case Mode(path, _) => Apart(path, journalDir)
  }

  /** The backup that a record brings back, if it is one of those that do. */
  function BackupOf(inverse: Inverse): Option<Path> {
    match inverse
    case Replace(_, backup) => Some(backup)
    case Restore(_, backup) => Some(backup)
    case _ => None
  }

  /** Whether the change that a record takes back has been made: what it moved is where it moved it. */
  predicate Made(t: Tree, inverse: Inverse) {
    match inverse
    case Replace(_, backup) => backup in t
    case Restore(_, backup) => backup in t
    case MoveBack(source, destination) => destination in t && source != destination
    case _ => true
  }

  /** Every record finds its change made when its turn comes in a replay without a fault. */
  ghost predicate AllMade(t: Tree, inverses: seq<Inverse>)
    requires UndoAll(t, inverses).Some?
    decreases |inverses|
  {
    inverses != [] ==>
      var last := inverses[|inverses| - 1];
      Made(t, last) && AllMade(Undo(t, last).value, inverses[..|inverses| - 1])
  }

  /** The same but for the newest record, whose change may not have been made. */
  ghost predicate OlderMade(t: Tree, inverses: seq<Inverse>)
    requires UndoAll(t, inverses).Some?
  {
    inverses != [] ==> AllMade(Undo(t, inverses[|inverses| - 1]).value, inverses[..|inverses| - 1])
  }

  datatype Log = Log(root: Option<Path>, inverses: seq<Inverse>, nextBackup: nat)

  /** The journal directory exists exactly when the log says so, and unused backup names are free. */
  ghost predicate Housekeeping(t: Tree, log: Log, journalDir: Path) {
    && WellFormed(t)
    && journalDir != [] && Parent(journalDir) in t && t[Parent(journalDir)].Dir?
    && (if log.root.Some? then log.root.value == journalDir && journalDir in t && t[journalDir].Dir?
        else journalDir !in t)
    && FreshBackups(t, journalDir, log.nextBackup)
    && forall i | 0 <= i < |log.inverses| :: Confined(log.inverses[i], journalDir)
  }

  /** Every backup has a name of its own, directly in the journal directory and not to be given again. */
  ghost predicate BackupsNamed(log: Log, journalDir: Path) {
    && (forall i | 0 <= i < |log.inverses| && BackupOf(log.inverses[i]).Some? ::
          |BackupOf(log.inverses[i]).value| == |journalDir| + 1)
    && (forall i, j | 0 <= i < j < |log.inverses| && BackupOf(log.inverses[i]).Some? ::
          BackupOf(log.inverses[i]) != BackupOf(log.inverses[j]))
    && forall i, index: nat, serial: nat | 0 <= i < |log.inverses| && log.nextBackup <= serial ::
         BackupOf(log.inverses[i]) != Some(BackupPath(journalDir, index, serial))
  }

  /** The initial tree, with the empty journal directory once there is one. */
  function Goal(initial: Tree, log: Log, journalDir: Path): Tree {
    if log.root.Some? then initial[journalDir := Dir(NEW_DIR_MODE)] else initial
  }

  /** Replaying the log from `t` succeeds and gives back the initial tree, and all changes but perhaps the
      newest have been made. */
  ghost predicate Recoverable(t: Tree, log: Log, initial: Tree, journalDir: Path) {
    && Housekeeping(t, log, journalDir) && BackupsNamed(log, journalDir)
    && WellFormed(initial) && journalDir !in initial
    && UndoAll(t, log.inverses) == Some(Goal(initial, log, journalDir))
    && OlderMade(t, log.inverses)
  }

  /** So it is between changes, when the newest one has been made as well. */
  ghost predicate Settled(t: Tree, log: Log, initial: Tree, journalDir: Path) {
    && Recoverable(t, log, initial, journalDir)
    && (log.inverses != [] ==> Made(t, log.inverses[|log.inverses| - 1]))
  }

  lemma SettledRecoverable(t: Tree, log: Log, initial: Tree, journalDir: Path)
    requires Settled(t, log, initial, journalDir)
    ensures Recoverable(t, log, initial, journalDir)
  {}

  /** The journal directory, what it holds and its parent are the same in both trees. */
  ghost predicate SameJournal(t: Tree, t': Tree, journalDir: Path)
    requires journalDir != []
  {
    forall p | journalDir <= p || p == Parent(journalDir) ::
      (p in t <==> p in t') && (p in t ==> t[p] == t'[p])
  }

  lemma HousekeepingKept(t: Tree, t': Tree, log: Log, journalDir: Path)
    requires Housekeeping(t, log, journalDir) && WellFormed(t') && SameJournal(t, t', journalDir)
    ensures Housekeeping(t', log, journalDir)
  {}

  lemma SameOutsideSameJournal(t: Tree, t': Tree, p: Path, journalDir: Path)
    requires Apart(p, journalDir) && Without(t, p) == Without(t', p)
    ensures SameJournal(t, t', journalDir)
  {
    forall q | journalDir <= q || q == Parent(journalDir)
      ensures (q in t <==> q in t') && (q in t ==> t[q] == t'[q])
    {
      NotBelowApart(p, q, journalDir);
      assert q in t <==> q in Without(t, p);
      assert q in t' <==> q in Without(t', p);
    }
  }

  lemma NotBelowApart(p: Path, q: Path, journalDir: Path)
    requires Apart(p, journalDir)
    requires journalDir <= q || q == Parent(journalDir)
    ensures !(p <= q)
  {}

  lemma RenameSameJournal(t: Tree, s: Path, d: Path, journalDir: Path)
    requires Apart(s, journalDir) && Apart(d, journalDir)
    ensures SameJournal(t, Renamed(t, s, d), journalDir)
  {}

  // ----- recording a change keeps the log recoverable -----

  function Push(log: Log, inverse: Inverse): Log {
    log.(inverses := log.inverses + [inverse])
  }

  lemma PushUndone(t: Tree, t': Tree, inverses: seq<Inverse>, inverse: Inverse)
    requires UndoAll(t, inverses).Some? && AllMade(t, inverses) && Undo(t', inverse) == Some(t)
    ensures UndoAll(t', inverses + [inverse]) == UndoAll(t, inverses) && OlderMade(t', inverses + [inverse])
  {
    UndoAllOfPush(t', inverses, inverse);
    assert (inverses + [inverse])[..|inverses|] == inverses;
  }

  /** A record that does nothing yet can be pushed before its change. */
  lemma RecordEarly(t: Tree, log: Log, initial: Tree, journalDir: Path, inverse: Inverse)
    requires Settled(t, log, initial, journalDir) && Confined(inverse, journalDir)
    requires Undo(t, inverse) == Some(t) && BackupOf(inverse).None?
    ensures Recoverable(t, Push(log, inverse), initial, journalDir)
    ensures Made(t, inverse) ==> Settled(t, Push(log, inverse), initial, journalDir)
  {
    RecordLate(t, t, log, initial, journalDir, inverse);
  }

  /** A change can be recorded by a record that takes it back exactly. */
  lemma RecordLate(t: Tree, t': Tree, log: Log, initial: Tree, journalDir: Path, inverse: Inverse)
    requires Settled(t, log, initial, journalDir) && Confined(inverse, journalDir)
    requires WellFormed(t') && SameJournal(t, t', journalDir)
    requires Undo(t', inverse) == Some(t) && BackupOf(inverse).None?
    ensures Recoverable(t', Push(log, inverse), initial, journalDir)
    ensures Made(t', inverse) ==> Settled(t', Push(log, inverse), initial, journalDir)
  {
    hide Undo, UndoAll, OlderMade, Confined, FreshBackups;
    SettledMade(t, log, initial, journalDir);
    HousekeepingKept(t, t', log, journalDir);
    PushUndone(t, t', log.inverses, inverse);
  }

  lemma SettledMade(t: Tree, log: Log, initial: Tree, journalDir: Path)
    requires Settled(t, log, initial, journalDir)
    ensures AllMade(t, log.inverses)
  {}

  lemma RecordRemove(t: Tree, log: Log, initial: Tree, journalDir: Path, p: Path)
    requires Settled(t, log, initial, journalDir) && Apart(p, journalDir) && p !in t
    ensures Settled(t, Push(log, Remove(p)), initial, journalDir)
  {
    AbsentWithout(t, p);
    RecordEarly(t, log, initial, journalDir, Remove(p));
  }

  lemma AbsentWithout(t: Tree, p: Path)
    requires WellFormed(t) && p !in t
    ensures Without(t, p) == t
  {
    forall q | q in t
      ensures !(p <= q)
    {
      if p <= q {
        AncestorIn(t, q, p);
      }
    }
  }

  lemma RecordCreated(t: Tree, log: Log, initial: Tree, journalDir: Path, p: Path, n: Node)
    requires Settled(t, log, initial, journalDir) && Apart(p, journalDir) && CanCreate(t, p)
    ensures Settled(t[p := n], Push(log, Remove(p)), initial, journalDir)
  {
    AbsentWithout(t, p);
    WithoutUpdate(t, p, n, p);
    SameOutsideSameJournal(t, t[p := n], p, journalDir);
    RecordLate(t, t[p := n], log, initial, journalDir, Remove(p));
  }

  lemma RecordMoveBack(t: Tree, log: Log, initial: Tree, journalDir: Path, s: Path, d: Path)
    requires Settled(t, log, initial, journalDir) && Apart(s, journalDir) && Apart(d, journalDir)
    requires d !in t
    ensures Recoverable(t, Push(log, MoveBack(s, d)), initial, journalDir)
  {
    RecordEarly(t, log, initial, journalDir, MoveBack(s, d));
  }

  lemma RecordMode(t: Tree, log: Log, initial: Tree, journalDir: Path, p: Path)
    requires Settled(t, log, initial, journalDir) && Apart(p, journalDir) && CanChmod(t, p)
    ensures Settled(t, Push(log, Mode(p, t[p].mode)), initial, journalDir)
  {
    assert Chmod(t, p, t[p].mode) == t;
    RecordEarly(t, log, initial, journalDir, Mode(p, t[p].mode));
  }

  // ----- changes whose record is already on top of the log -----

  /** The path that the newest record removes before anything else, if it does. */
  function TopRemoves(log: Log): Option<Path> {
    if log.inverses == [] then None
    else
      match log.inverses[|log.inverses| - 1]
      case Remove(path) => Some(path)
      case Replace(path, _) => Some(path)
      case _ => None
  }

  /** Anything may happen at or below a path that the newest record removes. */
  lemma ChangeBelowTop(t: Tree, t': Tree, log: Log, initial: Tree, journalDir: Path)
    requires Settled(t, log, initial, journalDir) && TopRemoves(log).Some?
    requires WellFormed(t') && Without(t, TopRemoves(log).value) == Without(t', TopRemoves(log).value)
    ensures Settled(t', log, initial, journalDir)
  {
    var p := TopRemoves(log).value;
    assert Confined(log.inverses[|log.inverses| - 1], journalDir);
    SameOutsideSameJournal(t, t', p, journalDir);
    HousekeepingKept(t, t', log, journalDir);
    assert Undo(t, log.inverses[|log.inverses| - 1]) == Undo(t', log.inverses[|log.inverses| - 1]);
  }

  lemma MoveRecorded(t: Tree, log: Log, initial: Tree, journalDir: Path, s: Path, d: Path)
    requires Recoverable(t, Push(log, MoveBack(s, d)), initial, journalDir)
    requires CanRename(t, s, d) && d !in t
    ensures Settled(Renamed(t, s, d), Push(log, MoveBack(s, d)), initial, journalDir)
  {
    var t' := Renamed(t, s, d);
    var pushed := Push(log, MoveBack(s, d));
    assert Confined(pushed.inverses[|log.inverses|], journalDir);
    RenameBack(t, s, d);
    assert s + d[|d|..] == s;
    RenameWellFormed(t, s, d);
    RenameSameJournal(t, s, d, journalDir);
    HousekeepingKept(t, t', pushed, journalDir);
    UndoAllOfPush(t, log.inverses, MoveBack(s, d));
    UndoAllOfPush(t', log.inverses, MoveBack(s, d));
  }

  lemma ChmodRecorded(t: Tree, log: Log, initial: Tree, journalDir: Path, p: Path, old_: nat, mode: nat)
    requires Settled(t, Push(log, Mode(p, old_)), initial, journalDir) && CanChmod(t, p)
    ensures Settled(Chmod(t, p, mode), Push(log, Mode(p, old_)), initial, journalDir)
  {
    var t' := Chmod(t, p, mode);
    var pushed := Push(log, Mode(p, old_));
    assert Confined(pushed.inverses[|log.inverses|], journalDir);
    ReplaceWellFormed(t, p, t'[p]);
    assert Without(t, p) == Without(t', p);
    SameOutsideSameJournal(t, t', p, journalDir);
    HousekeepingKept(t, t', pushed, journalDir);
    assert Chmod(t', p, old_) == Chmod(t, p, old_);
    UndoAllOfPush(t, log.inverses, Mode(p, old_));
    UndoAllOfPush(t', log.inverses, Mode(p, old_));
  }

  // ----- creating the journal directory -----

  /** With the journal directory added, a record does what it did before. */
  lemma UndoWithJournal(t: Tree, inverse: Inverse, journalDir: Path)
    requires WellFormed(t) && CanCreate(t, journalDir) && Confined(inverse, journalDir)
    requires Undo(t, inverse).Some?
    ensures CanCreate(Undo(t, inverse).value, journalDir)
    ensures Undo(t[journalDir := Dir(NEW_DIR_MODE)], inverse) ==
            Some(Undo(t, inverse).value[journalDir := Dir(NEW_DIR_MODE)])
  {
    var n := Dir(NEW_DIR_MODE);
    match inverse
    case Remove(path) =>
      NotBelowApart(path, Parent(journalDir), journalDir);
      WithoutUpdate(t, journalDir, n, path);
    case Replace(path, backup) =>
      NotBelowApart(path, Parent(journalDir), journalDir);
      assert backup !in t by {
        if backup in t {
          AncestorIn(t, backup, journalDir);
        }
      }
      assert Without(t[journalDir := n], path) == Without(t, path)[journalDir := n];
    case Restore(path, backup) =>
      assert backup !in t by {
        if backup in t {
          AncestorIn(t, backup, journalDir);
        }
      }
    case MoveBack(source, destination) =>
      if destination in t {
        RenameWithJournal(t, destination, source, journalDir);
      }
    case Mode(path, mode) =>
      if path in t {
        assert Chmod(t[journalDir := n], path, mode) == Chmod(t, path, mode)[journalDir := n];
      }
  }

  lemma RenameWithJournal(t: Tree, s: Path, d: Path, journalDir: Path)
    requires WellFormed(t) && CanCreate(t, journalDir) && Apart(s, journalDir) && Apart(d, journalDir)
    requires CanRename(t, s, d)
    ensures CanCreate(Renamed(t, s, d), journalDir)
    ensures CanRename(t[journalDir := Dir(NEW_DIR_MODE)], s, d)
    ensures Renamed(t[journalDir := Dir(NEW_DIR_MODE)], s, d) == Renamed(t, s, d)[journalDir := Dir(NEW_DIR_MODE)]
  {
    RenameSameJournal(t, s, d, journalDir);
    assert Parent(d) != journalDir;
    RenamedWithJournal(t, s, d, journalDir);
  }

  lemma RenamedWithJournal(t: Tree, s: Path, d: Path, journalDir: Path)
    requires Apart(s, journalDir) && Apart(d, journalDir)
    ensures Renamed(t[journalDir := Dir(NEW_DIR_MODE)], s, d) == Renamed(t, s, d)[journalDir := Dir(NEW_DIR_MODE)]
  {}

  lemma {:induction false} UndoAllWithJournal(t: Tree, inverses: seq<Inverse>, journalDir: Path)
    requires WellFormed(t) && CanCreate(t, journalDir)
    requires forall i | 0 <= i < |inverses| :: Confined(inverses[i], journalDir)
    requires UndoAll(t, inverses).Some?
    ensures UndoAll(t[journalDir := Dir(NEW_DIR_MODE)], inverses) ==
            Some(UndoAll(t, inverses).value[journalDir := Dir(NEW_DIR_MODE)])
    ensures AllMade(t, inverses) ==> AllMade(t[journalDir := Dir(NEW_DIR_MODE)], inverses)
    decreases |inverses|
  {
    if inverses != [] {
      var last := inverses[|inverses| - 1];
      UndoWithJournal(t, last, journalDir);
      UndoWellFormed(t, last);
      UndoAllWithJournal(Undo(t, last).value, inverses[..|inverses| - 1], journalDir);
    }
  }

  lemma JournalCreated(t: Tree, log: Log, initial: Tree, journalDir: Path)
    requires Settled(t, log, initial, journalDir) && log.root.None?
    ensures CanCreate(t, journalDir)
    ensures Settled(t[journalDir := Dir(NEW_DIR_MODE)], log.(root := Some(journalDir)), initial, journalDir)
  {
    hide Undo, UndoAll;
    var t' := t[journalDir := Dir(NEW_DIR_MODE)];
    CreateWellFormed(t, journalDir, Dir(NEW_DIR_MODE));
    SettledMade(t, log, initial, journalDir);
    UndoAllWithJournal(t, log.inverses, journalDir);
    forall index: nat, serial: nat
      ensures BackupPath(journalDir, index, serial) !in t'
    {
      var b := BackupPath(journalDir, index, serial);
      if b in t {
        AncestorIn(t, b, journalDir);
      }
    }
  }

  // ----- moving an entry into the journal directory -----

  /** A backup uses up its own name only. */
  lemma FreshAfterBackup(t: Tree, journalDir: Path, p: Path, index: nat, next: nat)
    requires FreshBackups(t, journalDir, next) && Apart(p, journalDir)
    ensures FreshBackups(Renamed(t, p, BackupPath(journalDir, index, next)), journalDir, next + 1)
  {
    var b := BackupPath(journalDir, index, next);
    forall index': nat, serial: nat | next + 1 <= serial
      ensures BackupPath(journalDir, index', serial) !in Renamed(t, p, b)
    {
      var c := BackupPath(journalDir, index', serial);
      if b <= c {
        assert b == c;
        BackupPathsDiffer(journalDir, index, next, index', serial);
      }
    }
  }

  lemma SkippedSerial(t: Tree, log: Log, initial: Tree, journalDir: Path)
    requires Settled(t, log, initial, journalDir)
    ensures Settled(t, log.(nextBackup := log.nextBackup + 1), initial, journalDir)
  {}

  lemma FreeSlot(t: Tree, log: Log, journalDir: Path, index: nat)
    requires Housekeeping(t, log, journalDir)
    ensures WellFormed(t) && BackupPath(journalDir, index, log.nextBackup) !in t
    ensures journalDir < BackupPath(journalDir, index, log.nextBackup)
  {}

  lemma BackupHousekeeping(t: Tree, log: Log, journalDir: Path, p: Path, index: nat, inverse: Inverse)
    requires Housekeeping(t, log, journalDir) && log.root.Some? && Apart(p, journalDir)
    requires Confined(inverse, journalDir) && CanRename(t, p, BackupPath(journalDir, index, log.nextBackup))
    ensures Housekeeping(Renamed(t, p, BackupPath(journalDir, index, log.nextBackup)),
                         Push(log, inverse).(nextBackup := log.nextBackup + 1), journalDir)
  {
    hide FreshBackups, CanRename;
    var b := BackupPath(journalDir, index, log.nextBackup);
    RenameWellFormed(t, p, b);
    FreshAfterBackup(t, journalDir, p, index, log.nextBackup);
    NotBelowApart(p, journalDir, journalDir);
    NotBelowApart(p, Parent(journalDir), journalDir);
    assert !(b <= journalDir) && !(b <= Parent(journalDir));
  }

  /** A backup with the next serial number has a name that no other backup has or will have. */
  lemma BackupNamed(log: Log, journalDir: Path, index: nat, inverse: Inverse)
    requires BackupsNamed(log, journalDir)
    requires BackupOf(inverse) == Some(BackupPath(journalDir, index, log.nextBackup))
    ensures BackupsNamed(Push(log, inverse).(nextBackup := log.nextBackup + 1), journalDir)
  {
    forall index': nat, serial: nat | log.nextBackup + 1 <= serial
      ensures BackupPath(journalDir, index', serial) != BackupPath(journalDir, index, log.nextBackup)
    {
      if BackupPath(journalDir, index', serial) == BackupPath(journalDir, index, log.nextBackup) {
        BackupPathsDiffer(journalDir, index, log.nextBackup, index', serial);
      }
    }
  }

  lemma BackedUp(t: Tree, log: Log, initial: Tree, journalDir: Path, p: Path, index: nat, inverse: Inverse)
    requires Settled(t, log, initial, journalDir) && log.root.Some? && Apart(p, journalDir)
    requires var b := BackupPath(journalDir, index, log.nextBackup);
      CanRename(t, p, b) && (inverse == Replace(p, b) || inverse == Restore(p, b))
    ensures var b := BackupPath(journalDir, index, log.nextBackup);
      Settled(Renamed(t, p, b), Push(log, inverse).(nextBackup := log.nextBackup + 1), initial, journalDir)
  {
    hide Housekeeping, BackupsNamed, Renamed, CanRename, Undo, UndoAll, AllMade, OlderMade;
    var b := BackupPath(journalDir, index, log.nextBackup);
    BackupNamed(log, journalDir, index, inverse);
    FreeSlot(t, log, journalDir, index);
    BackupUndone(t, p, b, inverse);
    SettledMade(t, log, initial, journalDir);
    PushUndone(t, Renamed(t, p, b), log.inverses, inverse);
    BackupHousekeeping(t, log, journalDir, p, index, inverse);
  }

  lemma BackupUndone(t: Tree, p: Path, b: Path, inverse: Inverse)
    requires WellFormed(t) && CanRename(t, p, b) && b !in t && (inverse == Replace(p, b) || inverse == Restore(p, b))
    ensures Undo(Renamed(t, p, b), inverse) == Some(t) && Made(Renamed(t, p, b), inverse)
  {
    RenameBack(t, p, b);
    RenameWellFormed(t, p, b);
    AbsentWithout(Renamed(t, p, b), p);
    assert p + b[|b|..] == p;
  }

  lemma SeenFromOutside(t: Tree, t': Tree, journalDir: Path, p: Path)
    requires Without(t, journalDir) == Without(t', journalDir) && !(journalDir <= p)
    ensures p in t <==> p in t'
  {
    assert p in t <==> p in Without(t, journalDir);
    assert p in t' <==> p in Without(t', journalDir);
  }

  /** Nothing but a missing entry keeps an entry from being backed up. */
  lemma BackupLegal(t: Tree, log: Log, initial: Tree, journalDir: Path, p: Path, index: nat)
    requires Settled(t, log, initial, journalDir) && log.root.Some? && Apart(p, journalDir)
    ensures CanRename(t, p, BackupPath(journalDir, index, log.nextBackup)) <==> p in t
  {}

  lemma BackupOutcome(t: Tree, log: Log, initial: Tree, journalDir: Path, p: Path, index: nat)
    requires Settled(t, log, initial, journalDir) && log.root.Some? && Apart(p, journalDir) && p in t
    ensures
      var b := BackupPath(journalDir, index, log.nextBackup);
      var t', log' := Renamed(t, p, b), log.(nextBackup := log.nextBackup + 1);
      && WellFormed(t') && p !in t' && Without(t', journalDir) == Without(Without(t, journalDir), p)
      && Settled(t', Push(log', Replace(p, b)), initial, journalDir)
      && Settled(t', Push(log', Restore(p, b)), initial, journalDir)
  {
    hide BackupsNamed, UndoAll;
    var b := BackupPath(journalDir, index, log.nextBackup);
    BackupLegal(t, log, initial, journalDir, p, index);
    BackedUp(t, log, initial, journalDir, p, index, Replace(p, b));
    BackedUp(t, log, initial, journalDir, p, index, Restore(p, b));
    RenameBack(t, p, b);
    RenameIntoIsRemoval(t, p, b, journalDir);
  }

  /** The paths a failed replay may have left in the wrong state. */
  function Leftovers(t: Tree, inverse: Inverse): set<Path> {
    var paths := match inverse
      case Remove(path) => {path}
      case Replace(path, backup) => {path, backup}
      case Restore(path, backup) => {path, backup}
      case MoveBack(source, destination) => {source, destination}
      case Mode(path, _) => {path};
    set p | p in paths && p in t
  }

  /** Whether replaying a record comes to a call at all. */
  predicate HasWork(t: Tree, inverse: Inverse) {
    match inverse
    case Remove(path) => path in t
    case Replace(path, backup) => path in t || backup in t
    case Restore(_, backup) => backup in t
    case MoveBack(_, destination) => destination in t
    case Mode(path, _) => path in t
  }

  /** How the replay of one record may go. One that fails changes nothing, but for what it was to remove,
      and there is something left to report. */
  ghost predicate Replayed(t: Tree, inverse: Inverse, ok: bool, t': Tree) {
    && WellFormed(t')
    && if ok then Undo(t, inverse) == Some(t')
       else
         && HasWork(t, inverse) && Leftovers(t', inverse) != {}
         && match inverse
            case Remove(path) => Thinned(t, t', path)
            case Replace(path, _) => Thinned(t, t', path)
            case _ => t' == t
  }

  // ----- whole rollbacks, whatever fails -----

  datatype Replay = Replay(ok: bool, after: Tree)

  /** The tree after the replays so far, from the tree `t`. */
  function TreeAfter(t: Tree, run: seq<Replay>): Tree {
    if run == [] then t else run[|run| - 1].after
  }

  /** The record that comes `k`-th in a rollback, which goes last-first. */
  function Record(inverses: seq<Inverse>, k: nat): Inverse
    requires k < |inverses|
  {
    inverses[|inverses| - 1 - k]
  }

  /** Whether `run` is how a rollback from the tree `t` may have gone so far. */
  ghost predicate IsRun(t: Tree, inverses: seq<Inverse>, run: seq<Replay>) {
    && |run| <= |inverses|
    && (run != [] ==>
          var k := |run| - 1;
          && IsRun(t, inverses, run[..k])
          && Replayed(TreeAfter(t, run[..k]), Record(inverses, k), run[k].ok, run[k].after))
  }

  /** What a rollback reports of its replays: of every one that failed, whichever of its paths exist then. */
  function Reported(inverses: seq<Inverse>, run: seq<Replay>): set<Path>
    requires |run| <= |inverses|
  {
    if run == [] then {}
    else
      var k := |run| - 1;
      Reported(inverses, run[..k]) + (if run[k].ok then {} else Leftovers(run[k].after, Record(inverses, k)))
  }

  /** A rollback of the log from `t` to `t'`: all records are replayed, then the journal directory goes with
      all it still holds, unless it is reported itself. */
  ghost predicate RolledBack(t: Tree, log: Log, run: seq<Replay>, journalDir: Path, leftovers: set<Path>, t': Tree) {
    && |run| == |log.inverses| && IsRun(t, log.inverses, run)
    && WellFormed(t') && Thinned(TreeAfter(t, run), t', journalDir)
    && leftovers == Reported(log.inverses, run) + (if journalDir in t' then {journalDir} else {})
  }

  /** Replaying a record neither makes nor removes the journal directory. */
  lemma ReplayKeepsRoot(t: Tree, inverse: Inverse, ok: bool, t': Tree, journalDir: Path)
    requires Replayed(t, inverse, ok, t') && Confined(inverse, journalDir)
    ensures journalDir in t' <==> journalDir in t
  {
    if !ok || inverse.Remove? || inverse.Replace? {
      var path := match inverse case MoveBack(source, _) => source case _ => inverse.path;
      assert journalDir in t <==> journalDir in Without(t, path);
      assert journalDir in t' <==> journalDir in Without(t', path);
    }
  }

  lemma OneMore(t: Tree, inverses: seq<Inverse>, run: seq<Replay>, ok: bool, t': Tree)
    requires IsRun(t, inverses, run) && |run| < |inverses|
    requires Replayed(TreeAfter(t, run), Record(inverses, |run|), ok, t')
    ensures var run' := run + [Replay(ok, t')];
      && IsRun(t, inverses, run') && TreeAfter(t, run') == t'
      && Reported(inverses, run') ==
         Reported(inverses, run) + (if ok then {} else Leftovers(t', Record(inverses, |run|)))
  {
    assert (run + [Replay(ok, t')])[..|run|] == run;
  }

  lemma NextUndoes(t: Tree, inverses: seq<Inverse>, run: seq<Replay>)
    requires IsRun(t, inverses, run) && |run| < |inverses| && UndoAll(t, inverses).Some?
    ensures Reported(inverses, run) == {} ==> Undo(TreeAfter(t, run), Record(inverses, |run|)).Some?
  {
    if Reported(inverses, run) == {} {
      AllWell(t, inverses, run);
    }
  }

  /** The last replay of a run that reports nothing. */
  lemma LastWell(t: Tree, inverses: seq<Inverse>, run: seq<Replay>)
    requires run != [] && IsRun(t, inverses, run) && Reported(inverses, run) == {}
    ensures var k := |run| - 1;
      && k < |inverses| && IsRun(t, inverses, run[..k]) && Reported(inverses, run[..k]) == {}
      && Undo(TreeAfter(t, run[..k]), Record(inverses, k)) == Some(TreeAfter(t, run))
  {}

  /** A run that reports nothing undoes record after record. */
  lemma {:induction false} AllWell(t: Tree, inverses: seq<Inverse>, run: seq<Replay>)
    requires IsRun(t, inverses, run) && Reported(inverses, run) == {}
    ensures |run| <= |inverses| && UndoAll(t, inverses) == UndoAll(TreeAfter(t, run), inverses[..|inverses| - |run|])
  {
    if run == [] {
      assert inverses[..|inverses|] == inverses;
      return;
    }
    hide IsRun, Reported, Undo, TreeAfter;
    var k := |run| - 1;
    LastWell(t, inverses, run);
    AllWell(t, inverses, run[..k]);
    var front := inverses[..|inverses| - k];
    assert front[|front| - 1] == Record(inverses, k);
    assert front[..|front| - 1] == inverses[..|inverses| - |run|];
  }

  /** Replays one record. */
  method ApplyInverse(fs: FileSystem, inverse: Inverse) returns (ok: bool)
    requires WellFormed(fs.tree)
    modifies fs`tree
    ensures Replayed(old(fs.tree), inverse, ok, fs.tree)
    ensures fs.reliable ==> ok == Undo(old(fs.tree), inverse).Some?
  {
    match inverse {
      case Remove(path) =>
        ok := true;
        if path in fs.tree {
          ok := fs.RemoveTree(path);
          assert !ok ==> path in Leftovers(fs.tree, inverse);
        } else {
          AbsentWithout(fs.tree, path);
        }
      case Replace(path, backup) =>
        ok := true;
        if path in fs.tree {
          ok := fs.RemoveTree(path);
          assert !ok ==> path in Leftovers(fs.tree, inverse);
        } else {
          AbsentWithout(fs.tree, path);
        }
        if ok {
          ok := RenameIfPresent(fs, backup, path);
          assert !ok ==> backup in Leftovers(fs.tree, inverse);
        }
      case Restore(path, backup) =>
        ok := RenameIfPresent(fs, backup, path);
        assert !ok ==> backup in Leftovers(fs.tree, inverse);
      case MoveBack(source, destination) =>
        ok := RenameIfPresent(fs, destination, source);
        assert !ok ==> destination in Leftovers(fs.tree, inverse);
      case Mode(path, mode) =>
        ok := true;
        if path in fs.tree {
          ok := fs.SetMode(path, mode);
          if ok {
            ReplaceWellFormed(old(fs.tree), path, fs.tree[path]);
          }
          assert !ok ==> path in Leftovers(fs.tree, inverse);
        }
    }
  }

  method RenameIfPresent(fs: FileSystem, from: Path, to: Path) returns (ok: bool)
    requires WellFormed(fs.tree)
    modifies fs`tree
    ensures WellFormed(fs.tree)
    ensures ok ==> PutBack(old(fs.tree), from, to) == Some(fs.tree)
    ensures !ok ==> fs.tree == old(fs.tree) && from in fs.tree
    ensures fs.reliable ==> ok == PutBack(old(fs.tree), from, to).Some?
  {
    ok := true;
    if from in fs.tree {
      ok := fs.Rename(from, to);
      if ok {
        RenameWellFormed(old(fs.tree), from, to);
      }
    }
  }

  /** The journal of one run of post-install steps, over the file system they change. */
  class StepJournal {
    const fs: FileSystem
    /** Where the journal directory goes: a name in the formula's rack that is free at the start. */
    const journalDir: Path
    var root: Option<Path>
    var inverses: seq<Inverse>
    var nextBackup: nat
    /** The tree that a rollback must give back. */
    ghost var initial: Tree

    ghost function ToLog(): Log
      reads this
    {
      Log(root, inverses, nextBackup)
    }

    /** A rollback gives back the initial tree. */
    ghost predicate Undoable()
      reads this, fs
    {
      Recoverable(fs.tree, ToLog(), initial, journalDir)
    }

    /** So it does, and the newest change recorded has been made. */
    ghost predicate Valid()
      reads this, fs
      ensures Valid() ==> Undoable()
    {
      Settled(fs.tree, ToLog(), initial, journalDir)
    }

    /** The formula's side of the tree: everything but the journal directory. */
    function View(): Tree
      reads this, fs
    {
      Without(fs.tree, journalDir)
    }

    constructor (fs: FileSystem, journalDir: Path)
      requires WellFormed(fs.tree) && CanCreate(fs.tree, journalDir)
      ensures Valid() && View() == fs.tree
      ensures this.fs == fs && this.journalDir == journalDir
      ensures initial == fs.tree && inverses == [] && root == None
    {
      this.fs, this.journalDir := fs, journalDir;
      root, inverses, nextBackup := None, [], 0;
      initial := fs.tree;
      new;
      AbsentWithout(fs.tree, journalDir);
      assert forall index: nat, serial: nat :: journalDir <= BackupPath(journalDir, index, serial);
      forall index: nat, serial: nat
        ensures BackupPath(journalDir, index, serial) !in fs.tree
      {
        if BackupPath(journalDir, index, serial) in fs.tree {
          AncestorIn(fs.tree, BackupPath(journalDir, index, serial), journalDir);
        }
      }
    }

    /** Moves `path` into the journal directory, which is created on first use. The caller then records
        either of the two inverses that bring a backup back. */
    method Backup(index: nat, path: Path) returns (backup: Option<Path>)
      requires Valid() && Apart(path, journalDir)
      modifies this`root, this`nextBackup, fs`tree
      ensures backup.None? ==> Valid() && View() == old(View())
      ensures backup.Some? ==>
                && path in old(fs.tree) && path !in fs.tree && root.Some?
                && WellFormed(fs.tree) && View() == Without(old(View()), path)
                && Settled(fs.tree, Push(ToLog(), Replace(path, backup.value)), initial, journalDir)
                && Settled(fs.tree, Push(ToLog(), Restore(path, backup.value)), initial, journalDir)
      ensures fs.reliable ==> backup.Some? == (path in old(fs.tree))
    {
      hide Settled, CanRename, Renamed, Without, WellFormed;
      var present := OpenRoot();
      if !present {
        return None;
      }
      SeenFromOutside(old(fs.tree), fs.tree, journalDir, path);
      ghost var before, log := fs.tree, ToLog();
      BackupLegal(before, log, initial, journalDir, path, index);
      SkippedSerial(before, log, initial, journalDir);
      if path in before {
        BackupOutcome(before, log, initial, journalDir, path, index);
      }
      var slot := BackupPath(journalDir, index, nextBackup);
      nextBackup := nextBackup + 1;
      var moved := fs.Rename(path, slot);
      backup := if moved then Some(slot) else None;
    }

    /** Creates the journal directory unless it is there already. */
    method OpenRoot() returns (present: bool)
      requires Valid()
      modifies this`root, fs`tree
      ensures Valid() && View() == old(View())
      ensures present ==> root.Some?
      ensures fs.reliable ==> present
    {
      present := true;
      if root.None? {
        JournalCreated(fs.tree, ToLog(), initial, journalDir);
        WithoutUpdate(fs.tree, journalDir, Dir(NEW_DIR_MODE), journalDir);
        present := fs.CreateDir(journalDir);
        if present {
          root := Some(journalDir);
        }
      }
    }

    /** Makes room at `path` and records how to bring back what was there. */
    method ReplaceBeforeMutation(index: nat, path: Path) returns (ok: bool)
      requires Valid() && Apart(path, journalDir)
      modifies this`root, this`nextBackup, this`inverses, fs`tree
      ensures Valid()
      ensures ok ==> path !in fs.tree && View() == Without(old(View()), path) && TopRemoves(ToLog()) == Some(path)
      ensures !ok ==> View() == old(View())
      ensures fs.reliable ==> ok
    {
      hide BackupsNamed, UndoAll, FreshBackups, Goal;
      if path in fs.tree {
        var backup := Backup(index, path);
        if backup.None? {
          return false;
        }
        inverses := inverses + [Replace(path, backup.value)];
      } else {
        RecordRemove(fs.tree, ToLog(), initial, journalDir, path);
        AbsentWithout(fs.tree, path);
        WithoutCommutes(fs.tree, path, journalDir);
        inverses := inverses + [Remove(path)];
      }
      return true;
    }

    /** Ends a successful run: forgets the log and hands over the journal directory for deletion. */
    method TakeCleanupRoot() returns (taken: Option<Path>)
      requires Valid()
      modifies this
      ensures taken == old(root)
      ensures taken.Some? ==> taken.value == journalDir && journalDir in fs.tree
      ensures taken.None? ==> journalDir !in fs.tree
      ensures root == None && inverses == [] && nextBackup == 0 && initial == old(initial)
    {
      taken := root;
      root, inverses, nextBackup := None, [], 0;
    }

    /** Replays the log last-first, removes the journal directory and reports what could not be put back.
        When nothing is reported the initial tree is back. */
    method Rollback() returns (leftovers: set<Path>, ghost run: seq<Replay>)
      requires Undoable()
      modifies this, fs`tree
      ensures RolledBack(old(fs.tree), old(ToLog()), run, journalDir, leftovers, fs.tree)
      ensures leftovers == {} ==> fs.tree == old(initial)
      ensures fs.reliable ==> leftovers == {}
      ensures root == None && inverses == [] && nextBackup == 0 && initial == old(initial)
    {
      hide IsRun, Reported, UndoAll, BackupsNamed;
      leftovers, run := ReplayAll();
      if root.Some? && root.value in fs.tree {
        var ok := fs.RemoveTree(root.value);
        if !ok {
          leftovers := leftovers + {root.value};
        }
        WithoutUpdate(initial, journalDir, Dir(NEW_DIR_MODE), journalDir);
        AbsentWithout(initial, journalDir);
      }
      root, inverses, nextBackup := None, [], 0;
    }

    method ReplayAll() returns (leftovers: set<Path>, ghost run: seq<Replay>)
      requires Undoable()
      modifies fs`tree
      ensures |run| == |inverses| && IsRun(old(fs.tree), inverses, run)
      ensures WellFormed(fs.tree) && fs.tree == TreeAfter(old(fs.tree), run)
      ensures leftovers == Reported(inverses, run)
      ensures journalDir in fs.tree <==> root.Some?
      ensures leftovers == {} ==> fs.tree == Goal(initial, ToLog(), journalDir)
      ensures fs.reliable ==> leftovers == {}
    {
      hide BackupsNamed, Replayed, Undo, Leftovers;
      leftovers, run := {}, [];
      var i := |inverses|;
      while i > 0
        invariant 0 <= i <= |inverses|
        invariant |run| == |inverses| - i && IsRun(old(fs.tree), inverses, run)
        invariant WellFormed(fs.tree) && fs.tree == TreeAfter(old(fs.tree), run)
        invariant journalDir in fs.tree <==> root.Some?
        invariant leftovers == Reported(inverses, run)
        invariant fs.reliable ==> leftovers == {}
      {
        i := i - 1;
        ghost var before := fs.tree;
        var ok := ApplyInverse(fs, inverses[i]);
        ReplayKeepsRoot(before, inverses[i], ok, fs.tree, journalDir);
        OneMore(old(fs.tree), inverses, run, ok, fs.tree);
        NextUndoes(old(fs.tree), inverses, run);
        if !ok {
          leftovers := leftovers + Leftovers(fs.tree, inverses[i]);
        }
        run := run + [Replay(ok, fs.tree)];
      }
      if leftovers == {} {
        AllWell(old(fs.tree), inverses, run);
      }
    }
  }
}
