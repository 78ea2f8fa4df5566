/**
  Rollbacks in which calls fail. Each entry of the tree that a rollback starts from is followed through all
  replays, failed ones included, to where it ends: this says which entries are missing afterwards, which
  backups are lost, and what the report does not name.
 */
module RollbackFaults {
  import opened Text
  import opened FileTree
  import opened StepJournals

  // ----- following one entry -----

  /** Where the entry at `q` is after the subtree at `from`, if there is one, has become the one at `to`. */
  function Carried(t: Tree, from: Path, to: Path, q: Path): Option<Path> {
    if from !in t then Some(q)
    else if from <= q then Some(to + q[|from|..])
    else if to <= q then None
    else Some(q)
  }

  /** Where the entry at `q` is after one replay, or `None` when the replay has deleted it. */
  function Next(t: Tree, inverse: Inverse, replay: Replay, q: Path): Option<Path> {
    if !replay.ok then if q in replay.after then Some(q) else None
    else
      match inverse
      case Remove(path) => if path <= q then None else Some(q)
      case Replace(path, backup) => if path <= q then None else Carried(Without(t, path), backup, path, q)
      case Restore(path, backup) => Carried(t, backup, path, q)
      case MoveBack(source, destination) => Carried(t, destination, source, q)
      case Mode(_, _) => Some(q)
  }

  /** Where the entry that is at `q` when the rollback starts is after the replays of `run`. */
  function Fate(t: Tree, inverses: seq<Inverse>, run: seq<Replay>, q: Path): Option<Path>
    requires |run| <= |inverses|
  {
    if run == [] then Some(q)
    else
      var k := |run| - 1;
      match Fate(t, inverses, run[..k], q)
      case None => None
      case Some(r) => Next(TreeAfter(t, run[..k]), Record(inverses, k), run[k], r)
  }

  /** An entry but for its mode. */
  function Bare(n: Node): Node {
    match n
    case File(content, _) => File(content, 0)
    case Dir(_) => Dir(0)
    case Link(target) => n
  }

  lemma CarriedExactly(t: Tree, from: Path, to: Path, t': Tree, p: Path)
    requires WellFormed(t) && PutBack(t, from, to) == Some(t')
    ensures p in t' <==> exists q :: q in t && Carried(t, from, to, q) == Some(p)
    ensures forall q | q in t && Carried(t, from, to, q) == Some(p) :: t'[p] == t[q]
  {
    if p in t' {
      CarriedHere(t, from, to, t', p);
    }
    forall q | q in t && Carried(t, from, to, q) == Some(p)
      ensures p in t' && t'[p] == t[q]
    {
      CarriedThere(t, from, to, t', q);
    }
  }

  lemma CarriedHere(t: Tree, from: Path, to: Path, t': Tree, p: Path)
    requires PutBack(t, from, to) == Some(t') && p in t'
    ensures exists q :: q in t && Carried(t, from, to, q) == Some(p)
  {
    if from in t && to <= p {
      var q := from + p[|to|..];
      assert q in t && to + q[|from|..] == p;
    } else {
      assert p in t && Carried(t, from, to, p) == Some(p);
    }
  }

  lemma CarriedThere(t: Tree, from: Path, to: Path, t': Tree, q: Path)
    requires PutBack(t, from, to) == Some(t') && q in t && Carried(t, from, to, q).Some?
    ensures var p := Carried(t, from, to, q).value; p in t' && t'[p] == t[q]
  {
    if from in t && from <= q {
      var p := to + q[|from|..];
      assert from + p[|to|..] == q;
    }
  }

  /** A replay that moves nothing: it deletes entries or changes one mode. */
  lemma NextInPlace(t: Tree, inverse: Inverse, replay: Replay, p: Path)
    requires Replayed(t, inverse, replay.ok, replay.after) && (!replay.ok || inverse.Remove? || inverse.Mode?)
    ensures p in replay.after <==> p in t && Next(t, inverse, replay, p) == Some(p)
    ensures p in replay.after ==> Bare(replay.after[p]) == Bare(t[p])
    ensures forall q | q in t && Next(t, inverse, replay, q).Some? :: Next(t, inverse, replay, q) == Some(q)
  {}

  lemma NextExactly(t: Tree, inverse: Inverse, replay: Replay, p: Path)
    requires WellFormed(t) && Replayed(t, inverse, replay.ok, replay.after)
    ensures p in replay.after <==> exists q :: q in t && Next(t, inverse, replay, q) == Some(p)
    ensures forall q | q in t && Next(t, inverse, replay, q) == Some(p) :: Bare(replay.after[p]) == Bare(t[q])
  {
    hide Carried, PutBack, WellFormed, Leftovers;
    if !replay.ok || inverse.Remove? || inverse.Mode? {
      NextInPlace(t, inverse, replay, p);
    } else {
      match inverse
      case Replace(path, backup) =>
        WithoutWellFormed(t, path);
        CarriedExactly(Without(t, path), backup, path, replay.after, p);
        assert forall q | q in t && !(path <= q) :: q in Without(t, path) && Without(t, path)[q] == t[q];
      case Restore(path, backup) =>
        CarriedExactly(t, backup, path, replay.after, p);
      case MoveBack(source, destination) =>
        CarriedExactly(t, destination, source, replay.after, p);
    }
  }

  lemma RunWellFormed(t: Tree, inverses: seq<Inverse>, run: seq<Replay>)
    requires WellFormed(t) && IsRun(t, inverses, run)
    ensures WellFormed(TreeAfter(t, run))
  {}

  /** Whatever fails, the entries after some replays are those that were followed there. */
  lemma {:induction false} FateExactly(t: Tree, inverses: seq<Inverse>, run: seq<Replay>, p: Path)
    requires WellFormed(t) && IsRun(t, inverses, run)
    ensures p in TreeAfter(t, run) <==> exists q :: q in t && Fate(t, inverses, run, q) == Some(p)
    ensures forall q | q in t && Fate(t, inverses, run, q) == Some(p) :: Bare(TreeAfter(t, run)[p]) == Bare(t[q])
    decreases |run|
  {
    if run == [] {
      assert p in t ==> Fate(t, inverses, run, p) == Some(p);
      return;
    }
    var k := |run| - 1;
    var before, inverse := TreeAfter(t, run[..k]), Record(inverses, k);
    RunWellFormed(t, inverses, run[..k]);
    NextExactly(before, inverse, run[k], p);
    if p in run[k].after {
      var r :| r in before && Next(before, inverse, run[k], r) == Some(p);
      FateExactly(t, inverses, run[..k], r);
      var q :| q in t && Fate(t, inverses, run[..k], q) == Some(r);
      assert Fate(t, inverses, run, q) == Some(p);
    }
    forall q | q in t && Fate(t, inverses, run, q) == Some(p)
      ensures p in run[k].after && Bare(run[k].after[p]) == Bare(t[q])
    {
      FateExactly(t, inverses, run[..k], Fate(t, inverses, run[..k], q).value);
    }
  }

  /** What is missing after a rollback: a path outside the journal directory is there if and only if an entry
      ends up at it, and it holds what that entry held. */
  lemma MissingExactly(t: Tree, log: Log, run: seq<Replay>, journalDir: Path, leftovers: set<Path>, t': Tree, p: Path)
    requires WellFormed(t) && RolledBack(t, log, run, journalDir, leftovers, t') && !(journalDir <= p)
    ensures p !in t' <==> forall q | q in t :: Fate(t, log.inverses, run, q) != Some(p)
    ensures forall q | q in t && Fate(t, log.inverses, run, q) == Some(p) :: Bare(t'[p]) == Bare(t[q])
  {
    FateExactly(t, log.inverses, run, p);
    assert p in t' <==> p in Without(t', journalDir);
    assert p in TreeAfter(t, run) <==> p in Without(TreeAfter(t, run), journalDir);
  }

  // ----- entries in the journal directory -----

  /** Two backups directly in the journal directory that lie above one entry are the same. */
  lemma SameBackup(b: Path, c: Path, q: Path)
    requires b <= q && c <= q && |b| == |c|
    ensures b == c
  {}

  /** An entry below the backup `b` stays where it is in a replay that does not bring `b` back. */
  lemma NextWaits(t: Tree, inverse: Inverse, replay: Replay, journalDir: Path, b: Path, q: Path)
    requires WellFormed(t) && Replayed(t, inverse, replay.ok, replay.after) && Confined(inverse, journalDir)
    requires BackupOf(inverse).Some? ==> |BackupOf(inverse).value| == |b| && (BackupOf(inverse).value != b || !replay.ok)
    requires journalDir < b <= q && q in t
    ensures q in replay.after && Next(t, inverse, replay, q) == Some(q)
  {
    var path := match inverse case MoveBack(source, _) => source case _ => inverse.path;
    assert !(path <= q);
    if inverse.MoveBack? {
      assert !(inverse.destination <= q);
    }
    if BackupOf(inverse).Some? && BackupOf(inverse).value != b && BackupOf(inverse).value <= q {
      SameBackup(b, BackupOf(inverse).value, q);
    }
    assert q in Without(t, path);
    if !replay.ok {
      assert q in replay.after <==> q in Without(replay.after, path);
    }
  }

  lemma {:induction false} Waits(t: Tree, log: Log, run: seq<Replay>, journalDir: Path, b: Path, q: Path)
    requires WellFormed(t) && IsRun(t, log.inverses, run) && BackupsNamed(log, journalDir)
    requires forall i | 0 <= i < |log.inverses| :: Confined(log.inverses[i], journalDir)
    requires forall k | 0 <= k < |run| && BackupOf(Record(log.inverses, k)) == Some(b) :: !run[k].ok
    requires journalDir < b <= q && |b| == |journalDir| + 1 && q in t
    ensures q in TreeAfter(t, run) && Fate(t, log.inverses, run, q) == Some(q)
    decreases |run|
  {
    if run != [] {
      var k := |run| - 1;
      RunWellFormed(t, log.inverses, run[..k]);
      forall j | 0 <= j < k && BackupOf(Record(log.inverses, j)) == Some(b)
        ensures !run[..k][j].ok
      {
        assert run[..k][j] == run[j];
      }
      Waits(t, log, run[..k], journalDir, b, q);
      NextWaits(TreeAfter(t, run[..k]), Record(log.inverses, k), run[k], journalDir, b, q);
    }
  }

  /** No replay brings anything into the journal directory. */
  lemma {:induction false} StaysOut(t: Tree, inverses: seq<Inverse>, run: seq<Replay>, m: nat, journalDir: Path, q: Path)
    requires m <= |run| <= |inverses|
    requires forall i | 0 <= i < |inverses| :: Confined(inverses[i], journalDir)
    requires var r := Fate(t, inverses, run[..m], q); r.Some? ==> !(journalDir <= r.value)
    ensures var r := Fate(t, inverses, run, q); r.Some? ==> !(journalDir <= r.value)
    decreases |run|
  {
    hide Next, Confined;
    if m == |run| {
      assert run[..m] == run;
    } else {
      var k := |run| - 1;
      assert run[..k][..m] == run[..m];
      StaysOut(t, inverses, run[..k], m, journalDir, q);
      if Fate(t, inverses, run, q).Some? {
        NextOut(TreeAfter(t, run[..k]), Record(inverses, k), run[k], journalDir, Fate(t, inverses, run[..k], q).value);
      }
    }
  }

  lemma NextOut(t: Tree, inverse: Inverse, replay: Replay, journalDir: Path, q: Path)
    requires Confined(inverse, journalDir) && !(journalDir <= q) && Next(t, inverse, replay, q).Some?
    ensures !(journalDir <= Next(t, inverse, replay, q).value)
  {
    var to := if inverse.MoveBack? then inverse.source else inverse.path;
    var r := Next(t, inverse, replay, q).value;
    if r != q {
      ApartBelow(to, journalDir, r);
    }
  }

  /** What rests in the journal directory when a rollback starts is out of it in the end, and so not deleted
      with it, if and only if the replay of the one record that names its backup goes through. */
  lemma LeavesJournalExactly(t: Tree, log: Log, initial: Tree, journalDir: Path, run: seq<Replay>, k: nat, q: Path)
    requires Recoverable(t, log, initial, journalDir) && IsRun(t, log.inverses, run) && k < |run| == |log.inverses|
    requires BackupOf(Record(log.inverses, k)).Some? && BackupOf(Record(log.inverses, k)).value <= q && q in t
    ensures q in TreeAfter(t, run[..k]) && Fate(t, log.inverses, run[..k], q) == Some(q)
    ensures run[k].ok ==>
      var inverse := Record(log.inverses, k);
      Fate(t, log.inverses, run[..k + 1], q) == Some(inverse.path + q[|inverse.backup|..])
    ensures var r := Fate(t, log.inverses, run, q);
      r.Some? && journalDir <= r.value <==> !run[k].ok
    ensures !run[k].ok ==> q in TreeAfter(t, run) && Fate(t, log.inverses, run, q) == Some(q)
  {
    hide Next, UndoAll, Replayed, FreshBackups;
    var inverse := Record(log.inverses, k);
    var b := inverse.backup;
    assert Confined(inverse, journalDir) && |b| == |journalDir| + 1;
    OneRecordOnly(log, journalDir, k);
    RunPrefix(t, log.inverses, run, k);
    Waits(t, log, run[..k], journalDir, b, q);
    if run[k].ok {
      assert run[..k + 1][..k] == run[..k] && run[..k + 1][k] == run[k];
      RunPrefix(t, log.inverses, run, k + 1);
      RunWellFormed(t, log.inverses, run[..k]);
      AncestorIn(TreeAfter(t, run[..k]), q, b);
      PutBackCarries(TreeAfter(t, run[..k]), inverse, run[k], journalDir, q);
      StaysOut(t, log.inverses, run, k + 1, journalDir, q);
    } else {
      Waits(t, log, run, journalDir, b, q);
    }
  }

  lemma PutBackCarries(t: Tree, inverse: Inverse, replay: Replay, journalDir: Path, q: Path)
    requires Confined(inverse, journalDir) && BackupOf(inverse).Some? && replay.ok
    requires inverse.backup <= q && inverse.backup in t
    ensures Next(t, inverse, replay, q) == Some(inverse.path + q[|inverse.backup|..])
    ensures !(journalDir <= inverse.path + q[|inverse.backup|..])
  {
    assert !(inverse.path <= q) && !(inverse.path <= inverse.backup);
    ApartBelow(inverse.path, journalDir, inverse.path + q[|inverse.backup|..]);
  }

  lemma OneRecordOnly(log: Log, journalDir: Path, k: nat)
    requires BackupsNamed(log, journalDir) && k < |log.inverses| && BackupOf(Record(log.inverses, k)).Some?
    ensures forall j | 0 <= j < |log.inverses| && j != k ::
      BackupOf(Record(log.inverses, j)) != BackupOf(Record(log.inverses, k))
  {}

  lemma {:induction false} RunPrefix(t: Tree, inverses: seq<Inverse>, run: seq<Replay>, k: nat)
    requires IsRun(t, inverses, run) && k <= |run|
    ensures IsRun(t, inverses, run[..k])
    decreases |run|
  {
    if k == |run| {
      assert run[..k] == run;
    } else {
      RunPrefix(t, inverses, run[..|run| - 1], k);
      assert run[..|run| - 1][..k] == run[..k];
    }
  }

  // ----- entries of the initial tree -----

  /** Where the entry that a replay without a fault puts at `p` was before it. */
  function Source(t: Tree, inverse: Inverse, p: Path): Path {
    match inverse
    case Replace(path, backup) => if backup in t && path <= p then backup + p[|path|..] else p
    case Restore(path, backup) => if backup in t && path <= p then backup + p[|path|..] else p
    case MoveBack(source, destination) => if destination in t && source <= p then destination + p[|source|..] else p
    case _ => p
  }

  /** Where the entry that a whole rollback without a fault puts at `p` is once `k` records are replayed. */
  function Place(t: Tree, inverses: seq<Inverse>, p: Path, k: nat): Path
    requires UndoAll(t, inverses).Some? && k <= |inverses|
    decreases |inverses|
  {
    if inverses == [] then p
    else
      var last, front := inverses[|inverses| - 1], inverses[..|inverses| - 1];
      var t' := Undo(t, last).value;
      if k > 0 then Place(t', front, p, k - 1) else Source(t, last, Place(t', front, p, 0))
  }

  lemma SourceIn(t: Tree, inverse: Inverse, p: Path)
    requires WellFormed(t) && Undo(t, inverse).Some? && p in Undo(t, inverse).value
    ensures Source(t, inverse, p) in t && Bare(t[Source(t, inverse, p)]) == Bare(Undo(t, inverse).value[p])
  {}

  lemma {:induction false} PlaceIn(t: Tree, inverses: seq<Inverse>, p: Path)
    requires WellFormed(t) && UndoAll(t, inverses).Some? && p in UndoAll(t, inverses).value
    ensures Place(t, inverses, p, 0) in t
    ensures Bare(t[Place(t, inverses, p, 0)]) == Bare(UndoAll(t, inverses).value[p])
    decreases |inverses|
  {
    if inverses != [] {
      var last, front := inverses[|inverses| - 1], inverses[..|inverses| - 1];
      UndoWellFormed(t, last);
      PlaceIn(Undo(t, last).value, front, p);
      SourceIn(t, last, Place(Undo(t, last).value, front, p, 0));
    }
  }

  lemma PutBackKeeps(t: Tree, u: Tree, from: Path, to: Path, u': Tree, p: Path)
    requires WellFormed(t) && WellFormed(u) && PutBack(u, from, to) == Some(u')
    requires PutBack(t, from, to).Some? && p in PutBack(t, from, to).value && (from in t || from !in u)
    requires (if from in t && to <= p then from + p[|to|..] else p) in u
    ensures p in u'
    ensures Carried(u, from, to, if from in t && to <= p then from + p[|to|..] else p) == Some(p)
  {
    if from in t && to <= p {
      AncestorIn(u, from + p[|to|..], from);
      assert to + (from + p[|to|..])[|from|..] == p;
    }
  }

  /** An entry that the replay without a fault leaves alone is still the same one after the replay that may
      have failed, on a tree that may have gone astray; so is one that it moves, if it went through. */
  lemma ReplayKeeps(t: Tree, u: Tree, inverse: Inverse, replay: Replay, journalDir: Path, p: Path)
    requires WellFormed(t) && WellFormed(u) && Confined(inverse, journalDir) && (u == t || Made(t, inverse))
    requires Undo(t, inverse).Some? && p in Undo(t, inverse).value
    requires Replayed(u, inverse, replay.ok, replay.after) && Source(t, inverse, p) in u
    requires Source(t, inverse, p) != p ==> replay.ok
    ensures p in replay.after && Next(u, inverse, replay, Source(t, inverse, p)) == Some(p)
  {
    if !replay.ok {
      FailedKeeps(t, u, inverse, replay, journalDir, p);
    } else {
      match inverse
      case Remove(path) =>
        assert !(path <= p) && p in Without(u, path);
      case Replace(path, backup) =>
        assert !(path <= Source(t, inverse, p));
        assert Source(t, inverse, p) in Without(u, path);
        WithoutWellFormed(t, path);
        WithoutWellFormed(u, path);
        PutBackKeeps(Without(t, path), Without(u, path), backup, path, replay.after, p);
      case Restore(path, backup) =>
        PutBackKeeps(t, u, backup, path, replay.after, p);
      case MoveBack(source, destination) =>
        PutBackKeeps(t, u, destination, source, replay.after, p);
      case Mode(_, _) =>
    }
  }

  lemma FailedKeeps(t: Tree, u: Tree, inverse: Inverse, replay: Replay, journalDir: Path, p: Path)
    requires Confined(inverse, journalDir) && Undo(t, inverse).Some? && p in Undo(t, inverse).value && p in u
    requires Source(t, inverse, p) == p && Replayed(u, inverse, false, replay.after)
    ensures p in replay.after
  {
    if inverse.Remove? || inverse.Replace? {
      assert !(inverse.path <= p);
      assert p in Without(u, inverse.path) ==> p in Without(replay.after, inverse.path);
    }
  }

  lemma {:induction false} RunTail(t: Tree, inverses: seq<Inverse>, run: seq<Replay>)
    requires IsRun(t, inverses, run) && run != []
    ensures Replayed(t, Record(inverses, 0), run[0].ok, run[0].after)
    ensures IsRun(run[0].after, inverses[..|inverses| - 1], run[1..])
    ensures TreeAfter(run[0].after, run[1..]) == TreeAfter(t, run)
    decreases |run|
  {
    hide Replayed;
    var k := |run| - 1;
    if k > 0 {
      RunTail(t, inverses, run[..k]);
      assert run[1..][..k - 1] == run[..k][1..];
      assert Record(inverses[..|inverses| - 1], k - 1) == Record(inverses, k);
    } else {
      assert run[..0] == [];
    }
  }

  lemma {:induction false} FateTail(t: Tree, inverses: seq<Inverse>, run: seq<Replay>, q: Path)
    requires 0 < |run| <= |inverses|
    ensures Fate(t, inverses, run, q) ==
            (match Next(t, Record(inverses, 0), run[0], q)
             case None => None
             case Some(r) => Fate(run[0].after, inverses[..|inverses| - 1], run[1..], r))
    decreases |run|
  {
    hide Next;
    var k := |run| - 1;
    if k > 0 {
      FateTail(t, inverses, run[..k], q);
      assert run[1..][..k - 1] == run[..k][1..];
      assert Record(inverses[..|inverses| - 1], k - 1) == Record(inverses, k);
    } else {
      assert run[..0] == [];
    }
  }

  /** Followed through replays of which those that carry it go through, the entry that belongs at `p` is where
      it would be without a fault. */
  lemma {:induction false} ComesBack(t: Tree, u: Tree, inverses: seq<Inverse>, run: seq<Replay>, journalDir: Path, p: Path)
    requires WellFormed(t) && WellFormed(u) && UndoAll(t, inverses).Some? && p in UndoAll(t, inverses).value
    requires IsRun(u, inverses, run) && Place(t, inverses, p, 0) in u
    requires OlderMade(t, inverses) && (u == t || AllMade(t, inverses))
    requires forall i | 0 <= i < |inverses| :: Confined(inverses[i], journalDir)
    requires forall k | 0 <= k < |run| && Place(t, inverses, p, k) != Place(t, inverses, p, k + 1) :: run[k].ok
    ensures Fate(u, inverses, run, Place(t, inverses, p, 0)) == Some(Place(t, inverses, p, |run|))
    ensures Place(t, inverses, p, |run|) in TreeAfter(u, run)
    decreases |inverses|
  {
    hide Next, Replayed;
    if run != [] {
      var last, front := inverses[|inverses| - 1], inverses[..|inverses| - 1];
      var t' := Undo(t, last).value;
      var q := Place(t', front, p, 0);
      UndoWellFormed(t, last);
      PlaceIn(t', front, p);
      assert Place(t, inverses, p, 1) == q;
      RunTail(u, inverses, run);
      FateTail(u, inverses, run, Place(t, inverses, p, 0));
      ReplayKeeps(t, u, last, run[0], journalDir, q);
      forall k | 0 <= k < |run[1..]| && Place(t', front, p, k) != Place(t', front, p, k + 1)
        ensures run[1..][k].ok
      {
        assert Place(t, inverses, p, k + 1) != Place(t, inverses, p, k + 2);
      }
      RunWellFormed(u, inverses, run[..1]);
      ComesBack(t', run[0].after, front, run[1..], journalDir, p);
    }
  }

  /** Whether every replay that carries the entry that belongs at `p` goes through. */
  ghost predicate CarriersGoThrough(t: Tree, log: Log, run: seq<Replay>, p: Path)
    requires UndoAll(t, log.inverses).Some? && |run| == |log.inverses|
  {
    forall k | 0 <= k < |run| && Place(t, log.inverses, p, k) != Place(t, log.inverses, p, k + 1) :: run[k].ok
  }

  /** An entry of the initial tree is back, the same one with what it held, if every replay that carries it
      has gone through, whatever else fails. */
  lemma KeptByCarriers(t: Tree, log: Log, initial: Tree, run: seq<Replay>, journalDir: Path,
                       leftovers: set<Path>, t': Tree, p: Path)
    requires Recoverable(t, log, initial, journalDir) && RolledBack(t, log, run, journalDir, leftovers, t')
    requires p in initial && CarriersGoThrough(t, log, run, p)
    ensures UndoAll(t, log.inverses).Some?
    ensures Fate(t, log.inverses, run, Place(t, log.inverses, p, 0)) == Some(p)
    ensures p in t' && Bare(t'[p]) == Bare(initial[p])
  {
    hide Recoverable, IsRun, Reported, Fate;
    Grounds(t, log, initial, journalDir, p);
    PlaceIn(t, log.inverses, p);
    ComesBack(t, t, log.inverses, run, journalDir, p);
    PlaceEnds(t, log.inverses, p);
    MissingExactly(t, log, run, journalDir, leftovers, t', p);
  }

  /** What a recoverable log offers to reason about its rollbacks. */
  lemma Grounds(t: Tree, log: Log, initial: Tree, journalDir: Path, p: Path)
    requires Recoverable(t, log, initial, journalDir) && p in initial
    ensures WellFormed(t) && journalDir != [] && !(journalDir <= p)
    ensures UndoAll(t, log.inverses).Some? && OlderMade(t, log.inverses)
    ensures p in UndoAll(t, log.inverses).value && UndoAll(t, log.inverses).value[p] == initial[p]
    ensures forall i | 0 <= i < |log.inverses| :: Confined(log.inverses[i], journalDir)
  {
    NotInJournal(initial, journalDir, p);
  }

  lemma NotInJournal(initial: Tree, journalDir: Path, p: Path)
    requires WellFormed(initial) && journalDir !in initial && p in initial
    ensures !(journalDir <= p)
  {
    if journalDir <= p {
      AncestorIn(initial, p, journalDir);
    }
  }

  lemma {:induction false} PlaceEnds(t: Tree, inverses: seq<Inverse>, p: Path)
    requires UndoAll(t, inverses).Some?
    ensures Place(t, inverses, p, |inverses|) == p
    decreases |inverses|
  {
    if inverses != [] {
      PlaceEnds(Undo(t, inverses[|inverses| - 1]).value, inverses[..|inverses| - 1], p);
    }
  }

  /** Some record names the backup in which an entry of the initial tree rests. */
  lemma {:induction false} HolderOf(t: Tree, inverses: seq<Inverse>, journalDir: Path, p: Path) returns (k: nat)
    requires UndoAll(t, inverses).Some? && !(journalDir <= p) && journalDir <= Place(t, inverses, p, 0)
    requires forall i | 0 <= i < |inverses| :: Confined(inverses[i], journalDir)
    ensures k < |inverses| && BackupOf(Record(inverses, k)).Some?
    ensures BackupOf(Record(inverses, k)).value <= Place(t, inverses, p, 0)
    decreases |inverses|
  {
    var last, front := inverses[|inverses| - 1], inverses[..|inverses| - 1];
    var t' := Undo(t, last).value;
    var q := Place(t', front, p, 0);
    if journalDir <= q {
      assert Source(t, last, q) == q;
      k := HolderOf(t', front, journalDir, p);
      assert Record(front, k) == Record(inverses, k + 1);
      k := k + 1;
    } else {
      k := 0;
      if last.MoveBack? {
        ApartBelow(last.destination, journalDir, Place(t, inverses, p, 0));
      }
    }
  }

  /** The entry of the initial tree that rests in the journal directory when a rollback starts is deleted with
      that directory if and only if the replay of the one record that holds it fails. That it goes through does
      not mean that the entry is safe yet: see `PutBackLostLater`. */
  lemma DeletedWithJournal(t: Tree, log: Log, initial: Tree, journalDir: Path, run: seq<Replay>, p: Path) returns (k: nat)
    requires Recoverable(t, log, initial, journalDir) && IsRun(t, log.inverses, run) && |run| == |log.inverses|
    requires p in initial && journalDir <= Place(t, log.inverses, p, 0)
    ensures k < |run| && BackupOf(Record(log.inverses, k)).Some?
    ensures BackupOf(Record(log.inverses, k)).value <= Place(t, log.inverses, p, 0)
    ensures var r := Fate(t, log.inverses, run, Place(t, log.inverses, p, 0));
      r.Some? && journalDir <= r.value <==> !run[k].ok
  {
    if journalDir <= p {
      AncestorIn(initial, p, journalDir);
    }
    PlaceIn(t, log.inverses, p);
    k := HolderOf(t, log.inverses, journalDir, p);
    LeavesJournalExactly(t, log, initial, journalDir, run, k, Place(t, log.inverses, p, 0));
  }

  // ----- which entries are safe, told from the log alone -----

  /** Where a record puts back what its change moved, if that is what it does. */
  function Target(inverse: Inverse): Option<Path> {
    match inverse
    case Replace(path, _) => Some(path)
    case Restore(path, _) => Some(path)
    case MoveBack(source, _) => Some(source)
    case _ => None
  }

  /** No change that was made has moved an entry away from `p` or from above it. Only the newest record may
      stand for a change that was not made. */
  predicate LeftAlone(t: Tree, inverses: seq<Inverse>, p: Path) {
    forall i | 0 <= i < |inverses| && Target(inverses[i]).Some? && (i == |inverses| - 1 ==> Made(t, inverses[i])) ::
      !(Target(inverses[i]).value <= p)
  }

  lemma SourceMoves(t: Tree, inverse: Inverse, journalDir: Path, p: Path)
    requires Confined(inverse, journalDir)
    ensures Source(t, inverse, p) != p <==> Target(inverse).Some? && Target(inverse).value <= p && Made(t, inverse)
  {
    if Target(inverse).Some? && Target(inverse).value <= p {
      var from := if inverse.MoveBack? then inverse.destination else inverse.backup;
      assert Target(inverse).value + p[|Target(inverse).value|..] == p;
      assert from + p[|Target(inverse).value|..] == p ==> from == Target(inverse).value;
    }
  }

  lemma LeftAloneTail(t: Tree, inverses: seq<Inverse>, p: Path)
    requires inverses != [] && UndoAll(t, inverses).Some? && OlderMade(t, inverses)
    ensures var last := inverses[|inverses| - 1];
      LeftAlone(t, inverses, p) <==>
        && LeftAlone(Undo(t, last).value, inverses[..|inverses| - 1], p)
        && !(Target(last).Some? && Target(last).value <= p && Made(t, last))
  {
    hide Target, Undo;
    var last, front := inverses[|inverses| - 1], inverses[..|inverses| - 1];
    var t' := Undo(t, last).value;
    assert forall i | 0 <= i < |front| :: front[i] == inverses[i];
    assert front != [] ==> Made(t', front[|front| - 1]);
  }

  /** Without a fault the entry that belongs at `p` is there once `m` records are replayed, and stays. */
  ghost predicate InPlaceFrom(t: Tree, inverses: seq<Inverse>, p: Path, m: nat)
    requires UndoAll(t, inverses).Some?
  {
    forall k | m <= k <= |inverses| :: Place(t, inverses, p, k) == p
  }

  lemma InPlaceTail(t: Tree, inverses: seq<Inverse>, p: Path)
    requires inverses != [] && UndoAll(t, inverses).Some?
    ensures var last, front := inverses[|inverses| - 1], inverses[..|inverses| - 1];
      InPlaceFrom(t, inverses, p, 0) <==> InPlaceFrom(Undo(t, last).value, front, p, 0) && Source(t, last, p) == p
  {
    hide Source, Undo;
    var last, front := inverses[|inverses| - 1], inverses[..|inverses| - 1];
    var t' := Undo(t, last).value;
    assert Place(t, inverses, p, 0) == Source(t, last, Place(t', front, p, 0));
    if InPlaceFrom(t, inverses, p, 0) {
      forall k | 0 <= k <= |front|
        ensures Place(t', front, p, k) == p
      {
        assert Place(t, inverses, p, k + 1) == Place(t', front, p, k);
      }
    }
    if InPlaceFrom(t', front, p, 0) && Source(t, last, p) == p {
      forall k | 0 <= k <= |inverses|
        ensures Place(t, inverses, p, k) == p
      {
        assert k > 0 ==> Place(t, inverses, p, k) == Place(t', front, p, k - 1);
      }
    }
  }

  /** So the entry that belongs at `p` is there all the time. */
  lemma {:induction false} LeftAloneStays(t: Tree, inverses: seq<Inverse>, journalDir: Path, p: Path)
    requires UndoAll(t, inverses).Some? && OlderMade(t, inverses)
    requires forall i | 0 <= i < |inverses| :: Confined(inverses[i], journalDir)
    ensures LeftAlone(t, inverses, p) <==> InPlaceFrom(t, inverses, p, 0)
    decreases |inverses|
  {
    if inverses != [] {
      hide Source, Target, Undo, LeftAlone, InPlaceFrom;
      var last, front := inverses[|inverses| - 1], inverses[..|inverses| - 1];
      LeftAloneStays(Undo(t, last).value, front, journalDir, p);
      SourceMoves(t, last, journalDir, p);
      LeftAloneTail(t, inverses, p);
      InPlaceTail(t, inverses, p);
    }
  }

  /** Whether the entry that belongs at `p` comes back, with what it held, in every rollback whose first `m`
      replays go through. */
  ghost predicate Safe(t: Tree, log: Log, initial: Tree, journalDir: Path, p: Path, m: nat)
    requires UndoAll(t, log.inverses).Some? && p in initial
  {
    forall run, leftovers, t' | RolledBack(t, log, run, journalDir, leftovers, t') && GoThrough(run, m) ::
      && Fate(t, log.inverses, run, Place(t, log.inverses, p, 0)) == Some(p)
      && p in t' && Bare(t'[p]) == Bare(initial[p])
  }

  predicate GoThrough(run: seq<Replay>, m: nat) {
    forall k | 0 <= k < m && k < |run| :: run[k].ok
  }

  /** The rollback of which the first `m` replays go through. */
  lemma Begun(t: Tree, inverses: seq<Inverse>, m: nat) returns (run: seq<Replay>)
    requires WellFormed(t) && UndoAll(t, inverses).Some? && m <= |inverses|
    ensures |run| == m && IsRun(t, inverses, run) && GoThrough(run, m)
  {
    hide IsRun, Undo, UndoAll;
    run := NoReplay(t, inverses);
    while |run| < m
      invariant |run| <= m && IsRun(t, inverses, run) && GoThrough(run, |run|)
      invariant Reported(inverses, run) == {}
      decreases m - |run|
    {
      RunWellFormed(t, inverses, run);
      NextUndoes(t, inverses, run);
      var inverse := Record(inverses, |run|);
      var t' := Undo(TreeAfter(t, run), inverse).value;
      UndoWellFormed(TreeAfter(t, run), inverse);
      OneMore(t, inverses, run, true, t');
      run := run + [Replay(true, t')];
    }
  }

  lemma NoReplay(t: Tree, inverses: seq<Inverse>) returns (run: seq<Replay>)
    ensures run == [] && IsRun(t, inverses, run) && Reported(inverses, run) == {} && TreeAfter(t, run) == t
  {
    run := [];
  }

  lemma NothingBelow(t: Tree, p: Path, q: Path)
    requires WellFormed(t) && p !in t && q in t
    ensures !(p <= q)
  {
    if p <= q {
      AncestorIn(t, q, p);
    }
  }

  /** A replay at which every call fails leaves the tree and all its entries as they are. */
  lemma Stuck(t: Tree, inverse: Inverse, journalDir: Path, q: Path) returns (ok: bool)
    requires WellFormed(t) && Confined(inverse, journalDir) && q in t
    ensures Replayed(t, inverse, ok, t) && Next(t, inverse, Replay(ok, t), q) == Some(q)
  {
    ok := !HasWork(t, inverse);
    if ok {
      if inverse.Remove? || inverse.Replace? {
        AbsentWithout(t, inverse.path);
        NothingBelow(t, inverse.path, q);
      }
    } else {
      var p := match inverse
        case MoveBack(_, destination) => destination
        case Restore(_, backup) => backup
        case Replace(path, backup) => if path in t then path else backup
        case _ => inverse.path;
      assert p in Leftovers(t, inverse);
    }
  }

  /** From some point on every call of a rollback may fail. */
  lemma StuckFrom(t: Tree, inverses: seq<Inverse>, run: seq<Replay>, journalDir: Path, p: Path, q: Path)
    returns (all: seq<Replay>)
    requires WellFormed(t) && IsRun(t, inverses, run) && |run| <= |inverses|
    requires forall i | 0 <= i < |inverses| :: Confined(inverses[i], journalDir)
    requires Fate(t, inverses, run, p) == Some(q) && q in TreeAfter(t, run)
    ensures |all| == |inverses| && IsRun(t, inverses, all) && all[..|run|] == run
    ensures Fate(t, inverses, all, p) == Some(q)
  {
    hide IsRun, Next, Replayed, Confined, Undo;
    all := run;
    while |all| < |inverses|
      invariant |run| <= |all| <= |inverses| && IsRun(t, inverses, all) && all[..|run|] == run
      invariant Fate(t, inverses, all, p) == Some(q) && q in TreeAfter(t, all)
      decreases |inverses| - |all|
    {
      RunWellFormed(t, inverses, all);
      var now, inverse := TreeAfter(t, all), Record(inverses, |all|);
      var ok := Stuck(now, inverse, journalDir, q);
      OneMore(t, inverses, all, ok, now);
      assert (all + [Replay(ok, now)])[..|all|] == all;
      assert (all + [Replay(ok, now)])[..|run|] == all[..|run|];
      all := all + [Replay(ok, now)];
    }
  }

  /** If the entry is not in its place after `k` replays, a rollback that gets no further does not bring it back. */
  lemma NotYetSafe(t: Tree, log: Log, initial: Tree, journalDir: Path, p: Path, k: nat)
    returns (run: seq<Replay>, leftovers: set<Path>, t': Tree)
    requires Recoverable(t, log, initial, journalDir) && p in initial && k <= |log.inverses|
    ensures RolledBack(t, log, run, journalDir, leftovers, t') && GoThrough(run, k)
    ensures UndoAll(t, log.inverses).Some?
    ensures Fate(t, log.inverses, run, Place(t, log.inverses, p, 0)) == Some(Place(t, log.inverses, p, k))
  {
    hide Recoverable, IsRun, Fate, Reported, UndoAll, OlderMade, Place, Confined;
    Grounds(t, log, initial, journalDir, p);
    PlaceIn(t, log.inverses, p);
    var begun := Begun(t, log.inverses, k);
    ComesBack(t, t, log.inverses, begun, journalDir, p);
    run := StuckFrom(t, log.inverses, begun, journalDir, Place(t, log.inverses, p, 0), Place(t, log.inverses, p, k));
    assert GoThrough(run, k) by {
      assert forall i | 0 <= i < k :: run[i] == run[..k][i];
    }
    leftovers, t' := Reported(log.inverses, run), Without(TreeAfter(t, run), journalDir);
    RunWellFormed(t, log.inverses, run);
    WithoutWellFormed(TreeAfter(t, run), journalDir);
  }

  /** An entry of the initial tree is safe as soon as the last replay that carries it is through, and not
      before: then it comes back whatever fails from there on. */
  lemma SafeExactly(t: Tree, log: Log, initial: Tree, journalDir: Path, p: Path, m: nat)
    requires Recoverable(t, log, initial, journalDir) && p in initial && m <= |log.inverses|
    ensures UndoAll(t, log.inverses).Some?
    ensures Safe(t, log, initial, journalDir, p, m) <==> InPlaceFrom(t, log.inverses, p, m)
  {
    hide Recoverable, IsRun, Reported, Thinned, UndoAll, Fate, Place;
    Grounds(t, log, initial, journalDir, p);
    if InPlaceFrom(t, log.inverses, p, m) {
      forall run, leftovers, t' | RolledBack(t, log, run, journalDir, leftovers, t') && GoThrough(run, m)
        ensures Fate(t, log.inverses, run, Place(t, log.inverses, p, 0)) == Some(p)
        ensures p in t' && Bare(t'[p]) == Bare(initial[p])
      {
        KeptByCarriers(t, log, initial, run, journalDir, leftovers, t', p);
      }
    } else {
      var k :| m <= k <= |log.inverses| && Place(t, log.inverses, p, k) != p;
      var run, leftovers, t' := NotYetSafe(t, log, initial, journalDir, p, k);
      assert RolledBack(t, log, run, journalDir, leftovers, t') && GoThrough(run, m);
    }
  }

  /** Told from the log alone: an entry of the initial tree comes back in every rollback, whatever fails, if and
      only if no change that was made has moved it or anything above it away. */
  lemma AlwaysBackExactly(t: Tree, log: Log, initial: Tree, journalDir: Path, p: Path)
    requires Recoverable(t, log, initial, journalDir) && p in initial
    ensures UndoAll(t, log.inverses).Some?
    ensures Safe(t, log, initial, journalDir, p, 0) <==> LeftAlone(t, log.inverses, p)
  {
    hide Recoverable, UndoAll, LeftAlone, Safe, InPlaceFrom;
    Grounds(t, log, initial, journalDir, p);
    LeftAloneStays(t, log.inverses, journalDir, p);
    SafeExactly(t, log, initial, journalDir, p, 0);
  }

  // ----- four rollbacks in which one replay fails, over any tree -----

  lemma NothingDone(initial: Tree, journalDir: Path)
    requires WellFormed(initial) && CanCreate(initial, journalDir)
    ensures Settled(initial, Log(None, [], 0), initial, journalDir)
  {
    forall index: nat, serial: nat
      ensures BackupPath(journalDir, index, serial) !in initial
    {
      if BackupPath(journalDir, index, serial) in initial {
        AncestorIn(initial, BackupPath(journalDir, index, serial), journalDir);
      }
    }
  }

  lemma Moved(t: Tree, log: Log, initial: Tree, journalDir: Path, s: Path, d: Path)
    requires Settled(t, log, initial, journalDir) && Apart(s, journalDir) && Apart(d, journalDir)
    requires WellFormed(t) && CanRename(t, s, d) && d !in t
    ensures Settled(Renamed(t, s, d), Push(log, MoveBack(s, d)), initial, journalDir)
    ensures d in Renamed(t, s, d) && s !in Renamed(t, s, d) && WellFormed(Renamed(t, s, d))
    ensures CanRename(Renamed(t, s, d), d, s) && Renamed(Renamed(t, s, d), d, s) == t
  {
    hide Settled;
    RecordMoveBack(t, log, initial, journalDir, s, d);
    MoveRecorded(t, log, initial, journalDir, s, d);
    RenameBack(t, s, d);
    RenameWellFormed(t, s, d);
    assert s + d[|d|..] == s;
  }

  /** The log after the removal of `x` from the initial tree, and the tree it leaves. */
  lemma RemovedLog(initial: Tree, journalDir: Path, x: Path) returns (t: Tree, b: Path)
    requires WellFormed(initial) && CanCreate(initial, journalDir) && Apart(x, journalDir) && x in initial
    ensures Recoverable(t, Log(Some(journalDir), [Restore(x, b)], 1), initial, journalDir)
    ensures WellFormed(t) && b in t && x !in t && journalDir < b
  {
    hide Settled, Recoverable, Renamed;
    NothingDone(initial, journalDir);
    JournalCreated(initial, Log(None, [], 0), initial, journalDir);
    var made := initial[journalDir := Dir(NEW_DIR_MODE)];
    b := BackupPath(journalDir, 0, 0);
    t := Renamed(made, x, b);
    BackupOutcome(made, Log(Some(journalDir), [], 0), initial, journalDir, x, 0);
    assert Push(Log(Some(journalDir), [], 1), Restore(x, b)) == Log(Some(journalDir), [Restore(x, b)], 1);
    SettledRecoverable(t, Log(Some(journalDir), [Restore(x, b)], 1), initial, journalDir);
    assert x + b[|b|..] == x;
  }

  lemma OneReplay(t: Tree, inverse: Inverse, ok: bool, t': Tree)
    requires Replayed(t, inverse, ok, t')
    ensures IsRun(t, [inverse], [Replay(ok, t')]) && TreeAfter(t, [Replay(ok, t')]) == t'
    ensures Reported([inverse], [Replay(ok, t')]) == if ok then {} else Leftovers(t', inverse)
  {
    hide Replayed, Leftovers;
    assert Record([inverse], 0) == inverse;
    OneMore(t, [inverse], [], ok, t');
  }

  lemma PutBackFails(t: Tree, x: Path, b: Path)
    requires WellFormed(t) && b in t && x !in t
    ensures Replayed(t, Restore(x, b), false, t) && Leftovers(t, Restore(x, b)) == {b}
  {
    assert b in Leftovers(t, Restore(x, b));
  }

  /** Any entry that a step removes may be lost without being named: when its backup cannot be put back, the
      backup is deleted with the journal directory, and it is all that the report names. */
  lemma LostUnnamed(initial: Tree, journalDir: Path, x: Path)
    returns (t: Tree, log: Log, run: seq<Replay>, leftovers: set<Path>, t': Tree)
    requires WellFormed(initial) && CanCreate(initial, journalDir) && Apart(x, journalDir) && x in initial
    ensures Recoverable(t, log, initial, journalDir) && RolledBack(t, log, run, journalDir, leftovers, t')
    ensures x !in t' && leftovers != {} && forall p | p in leftovers :: p !in t' && journalDir < p
  {
    hide Settled, Recoverable, IsRun, Reported, Replayed, Leftovers, UndoAll;
    var b;
    t, b := RemovedLog(initial, journalDir, x);
    log, run, leftovers, t' := Log(Some(journalDir), [Restore(x, b)], 1), [Replay(false, t)], {b}, Without(t, journalDir);
    PutBackFails(t, x, b);
    OneReplay(t, Restore(x, b), false, t);
    WithoutWellFormed(t, journalDir);
  }

  lemma TwoReplays(t: Tree, log: Log, last: Inverse, rest: Inverse, t': Tree)
    requires log.inverses == [rest, last] && Replayed(t, last, false, t) && Replayed(t, rest, true, t')
    ensures var run := [Replay(false, t), Replay(true, t')];
      && IsRun(t, log.inverses, run) && TreeAfter(t, run) == t'
      && Reported(log.inverses, run) == Leftovers(t, last)
  {
    hide Replayed, Leftovers;
    assert Record(log.inverses, 0) == last && Record(log.inverses, 1) == rest;
    OneMore(t, log.inverses, [], false, t);
    OneMore(t, log.inverses, [Replay(false, t)], true, t');
    assert [Replay(false, t)] + [Replay(true, t')] == [Replay(false, t), Replay(true, t')];
  }

  /** The log after the directory `d` is made in the initial tree and `x` moved into it. */
  lemma MovedLog(initial: Tree, journalDir: Path, x: Path, d: Path, y: Path) returns (t: Tree)
    requires WellFormed(initial) && CanCreate(initial, journalDir) && Apart(x, journalDir) && x in initial
    requires CanCreate(initial, d) && Apart(d, journalDir) && Apart(d, x) && y != [] && Parent(y) == d
    ensures Settled(t, Log(None, [Remove(d), MoveBack(x, y)], 0), initial, journalDir)
    ensures WellFormed(t) && y in t && x !in t && journalDir !in t
  {
    hide Settled, Recoverable, Renamed, WellFormed;
    var made := initial[d := Dir(NEW_DIR_MODE)];
    NothingDone(initial, journalDir);
    RecordCreated(initial, Log(None, [], 0), initial, journalDir, d, Dir(NEW_DIR_MODE));
    CreateWellFormed(initial, d, Dir(NEW_DIR_MODE));
    assert d <= y;
    if y in initial {
      AncestorIn(initial, y, d);
    }
    ApartBelow(d, journalDir, y);
    ApartBelow(d, x, y);
    Moved(made, Push(Log(None, [], 0), Remove(d)), initial, journalDir, x, y);
    t := Renamed(made, x, y);
    RenameSameJournal(made, x, y, journalDir);
    assert Push(Push(Log(None, [], 0), Remove(d)), MoveBack(x, y)) == Log(None, [Remove(d), MoveBack(x, y)], 0);
  }

  /** Any entry that is moved into a new directory may be lost: when it cannot be moved back, undoing the
      creation of that directory deletes it. The report names the place where it was. */
  lemma MovedEntryLost(initial: Tree, journalDir: Path, x: Path, d: Path, y: Path)
    returns (t: Tree, log: Log, run: seq<Replay>, t': Tree)
    requires WellFormed(initial) && CanCreate(initial, journalDir) && Apart(x, journalDir) && x in initial
    requires CanCreate(initial, d) && Apart(d, journalDir) && Apart(d, x) && y != [] && Parent(y) == d
    ensures Recoverable(t, log, initial, journalDir) && RolledBack(t, log, run, journalDir, {y}, t')
    ensures x !in t' && y !in t'
  {
    hide Settled, Recoverable, IsRun, Reported, WellFormed, UndoAll;
    t := MovedLog(initial, journalDir, x, d, y);
    log, t' := Log(None, [Remove(d), MoveBack(x, y)], 0), Without(t, d);
    SettledRecoverable(t, log, initial, journalDir);
    run := [Replay(false, t), Replay(true, t')];
    WithoutWellFormed(t, d);
    MoveBackFails(t, x, y);
    TwoReplays(t, log, MoveBack(x, y), Remove(d), t');
    assert d <= y;
  }

  /** The log after moves from `p` to `d`, on to `s` and back to `d`. */
  lemma ThreeMoves(initial: Tree, journalDir: Path, p: Path, d: Path, s: Path) returns (t: Tree)
    requires WellFormed(initial) && CanCreate(initial, journalDir) && CanCreate(initial, d) && CanCreate(initial, s)
    requires Apart(p, journalDir) && Apart(d, journalDir) && Apart(s, journalDir)
    requires p in initial && Apart(p, d) && Apart(p, s) && Apart(d, s)
    ensures Recoverable(t, Log(None, [MoveBack(p, d), MoveBack(d, s), MoveBack(s, d)], 0), initial, journalDir)
    ensures WellFormed(t) && d in t && s !in t && Undo(t, MoveBack(p, d)) == Some(initial)
  {
    hide Settled, Recoverable, Renamed, WellFormed, CanRename;
    t := Renamed(initial, p, d);
    NothingDone(initial, journalDir);
    FreeMove(initial, p, d);
    Moved(initial, Log(None, [], 0), initial, journalDir, p, d);
    FurtherMove(initial, p, d, s);
    var log := Push(Log(None, [], 0), MoveBack(p, d));
    Moved(t, log, initial, journalDir, d, s);
    Moved(Renamed(t, d, s), Push(log, MoveBack(d, s)), initial, journalDir, s, d);
    SettledRecoverable(t, Push(Push(log, MoveBack(d, s)), MoveBack(s, d)), initial, journalDir);
    assert Push(Push(log, MoveBack(d, s)), MoveBack(s, d)).inverses == [MoveBack(p, d), MoveBack(d, s), MoveBack(s, d)];
  }

  lemma FreeMove(t: Tree, s: Path, d: Path)
    requires s in t && CanCreate(t, d) && Apart(s, d)
    ensures CanRename(t, s, d)
  {}

  lemma FurtherMove(t: Tree, p: Path, d: Path, s: Path)
    requires WellFormed(t) && CanCreate(t, s) && CanRename(t, p, d) && Apart(p, s) && Apart(d, s)
    ensures CanRename(Renamed(t, p, d), d, s) && s !in Renamed(t, p, d)
  {
    assert p + d[|d|..] == p;
    assert !(p <= Parent(s)) && !(d <= Parent(s)) by {
      assert p <= Parent(s) ==> p <= s;
      assert d <= Parent(s) ==> d <= s;
    }
  }

  /** A carrier that fails need not lose the entry: later replays may bring it back another way. */
  lemma FailedCarrierMadeGood(initial: Tree, journalDir: Path, p: Path, d: Path, s: Path)
    returns (t: Tree, log: Log, run: seq<Replay>)
    requires WellFormed(initial) && CanCreate(initial, journalDir) && CanCreate(initial, d) && CanCreate(initial, s)
    requires Apart(p, journalDir) && Apart(d, journalDir) && Apart(s, journalDir)
    requires p in initial && Apart(p, d) && Apart(p, s) && Apart(d, s)
    ensures Recoverable(t, log, initial, journalDir) && RolledBack(t, log, run, journalDir, {d}, initial)
  {
    hide Settled, Recoverable, Renamed, CanRename, IsRun, Reported;
    t := ThreeMoves(initial, journalDir, p, d, s);
    log := Log(None, [MoveBack(p, d), MoveBack(d, s), MoveBack(s, d)], 0);
    run := [Replay(false, t), Replay(true, t), Replay(true, initial)];
    MoveBackFails(t, s, d);
    ThreeReplays(t, log.inverses, run[0], run[1], run[2]);
  }

  lemma ThreeReplays(t: Tree, inverses: seq<Inverse>, r0: Replay, r1: Replay, r2: Replay)
    requires |inverses| == 3 && Replayed(t, inverses[2], r0.ok, r0.after)
    requires Replayed(r0.after, inverses[1], r1.ok, r1.after) && Replayed(r1.after, inverses[0], r2.ok, r2.after)
    ensures IsRun(t, inverses, [r0, r1, r2]) && TreeAfter(t, [r0, r1, r2]) == r2.after
    ensures Reported(inverses, [r0, r1, r2]) ==
            (if r0.ok then {} else Leftovers(r0.after, inverses[2])) +
            (if r1.ok then {} else Leftovers(r1.after, inverses[1])) +
            (if r2.ok then {} else Leftovers(r2.after, inverses[0]))
  {
    hide Replayed, Leftovers, IsRun, Reported;
    var none := NoReplay(t, inverses);
    assert Record(inverses, 0) == inverses[2] && Record(inverses, 1) == inverses[1] && Record(inverses, 2) == inverses[0];
    OneMore(t, inverses, none, r0.ok, r0.after);
    OneMore(t, inverses, [r0], r1.ok, r1.after);
    assert [r0] + [r1] == [r0, r1] && [r0, r1] + [r2] == [r0, r1, r2];
    OneMore(t, inverses, [r0, r1], r2.ok, r2.after);
  }

  /** The log after a directory is made, `x` moved into it and what was moved removed, and where the backup is. */
  lemma MovedAndRemovedLog(initial: Tree, journalDir: Path, x: Path, d: Path, y: Path) returns (t: Tree, u: Tree, b: Path)
    requires WellFormed(initial) && CanCreate(initial, journalDir) && Apart(x, journalDir) && x in initial
    requires CanCreate(initial, d) && Apart(d, journalDir) && Apart(d, x) && y != [] && Parent(y) == d
    ensures Recoverable(t, Log(Some(journalDir), [Remove(d), MoveBack(x, y), Restore(y, b)], 1), initial, journalDir)
    ensures WellFormed(t) && b in t && Undo(t, Restore(y, b)) == Some(u)
    ensures WellFormed(u) && y in u && x !in u && journalDir < b && Undo(u, MoveBack(x, y)).Some?
  {
    hide Settled, Recoverable, Renamed, WellFormed, CanRename, UndoAll;
    var moved := MovedLog(initial, journalDir, x, d, y);
    var log := Log(None, [Remove(d), MoveBack(x, y)], 0);
    JournalCreated(moved, log, initial, journalDir);
    u := moved[journalDir := Dir(NEW_DIR_MODE)];
    var log' := log.(root := Some(journalDir));
    b := BackupPath(journalDir, 0, 0);
    assert d <= y;
    ApartBelow(d, journalDir, y);
    BackupOutcome(u, log', initial, journalDir, y, 0);
    t := Renamed(u, y, b);
    SettledUndoes(u, log', initial, journalDir);
    BackupFree(u, log', initial, journalDir, y);
    BackupUndone(u, y, b, Restore(y, b));
    SettledRecoverable(t, Push(log'.(nextBackup := 1), Restore(y, b)), initial, journalDir);
    assert Push(log'.(nextBackup := 1), Restore(y, b)) == Log(Some(journalDir), [Remove(d), MoveBack(x, y), Restore(y, b)], 1);
  }

  lemma SettledUndoes(t: Tree, log: Log, initial: Tree, journalDir: Path)
    requires Settled(t, log, initial, journalDir) && log.inverses != []
    ensures WellFormed(t) && Undo(t, log.inverses[|log.inverses| - 1]).Some?
  {}

  lemma BackupFree(t: Tree, log: Log, initial: Tree, journalDir: Path, p: Path)
    requires Settled(t, log, initial, journalDir) && log.root.Some? && Apart(p, journalDir) && p in t
    ensures CanRename(t, p, BackupPath(journalDir, 0, log.nextBackup)) && BackupPath(journalDir, 0, log.nextBackup) !in t
  {
    BackupLegal(t, log, initial, journalDir, p, 0);
    FreeSlot(t, log, journalDir, 0);
  }

  /** An entry whose backup is put back may still be lost: when it cannot be moved back from there, undoing the
      creation of the directory it was moved to deletes it. */
  lemma PutBackLostLater(initial: Tree, journalDir: Path, x: Path, d: Path, y: Path)
    returns (t: Tree, log: Log, run: seq<Replay>, t': Tree)
    requires WellFormed(initial) && CanCreate(initial, journalDir) && Apart(x, journalDir) && x in initial
    requires CanCreate(initial, d) && Apart(d, journalDir) && Apart(d, x) && y != [] && Parent(y) == d
    ensures Recoverable(t, log, initial, journalDir) && RolledBack(t, log, run, journalDir, {y}, t')
    ensures log.inverses != [] && BackupOf(Record(log.inverses, 0)) == Some(Place(t, log.inverses, x, 0)) && run[0].ok
    ensures x !in t' && y !in t'
  {
    hide Settled, Recoverable, IsRun, Reported, WellFormed, UndoAll, Place, Renamed, CanRename;
    var u, b;
    t, u, b := MovedAndRemovedLog(initial, journalDir, x, d, y);
    log := Log(Some(journalDir), [Remove(d), MoveBack(x, y), Restore(y, b)], 1);
    var last := Without(u, d);
    run, t' := [Replay(true, u), Replay(false, u), Replay(true, last)], Without(last, journalDir);
    WithoutWellFormed(u, d);
    WithoutWellFormed(last, journalDir);
    MoveBackFails(u, x, y);
    ThreeReplays(t, log.inverses, run[0], run[1], run[2]);
    assert d <= y;
    RecoverableUndoes(t, log, initial, journalDir);
    PlaceInBackup(t, u, log.inverses, x, y, d, b);
  }

  lemma MoveBackFails(t: Tree, x: Path, y: Path)
    requires WellFormed(t) && y in t && x !in t
    ensures Replayed(t, MoveBack(x, y), false, t) && Leftovers(t, MoveBack(x, y)) == {y}
  {
    assert y in Leftovers(t, MoveBack(x, y));
  }

  lemma RecoverableUndoes(t: Tree, log: Log, initial: Tree, journalDir: Path)
    requires Recoverable(t, log, initial, journalDir)
    ensures UndoAll(t, log.inverses).Some?
  {}

  lemma PlaceInBackup(t: Tree, u: Tree, inverses: seq<Inverse>, x: Path, y: Path, d: Path, b: Path)
    requires inverses == [Remove(d), MoveBack(x, y), Restore(y, b)] && UndoAll(t, inverses).Some?
    requires Undo(t, Restore(y, b)) == Some(u) && b in t && y in u
    ensures Place(t, inverses, x, 0) == b
  {
    var middle := [Remove(d), MoveBack(x, y)];
    assert inverses[..2] == middle && middle[..1] == [Remove(d)] && [Remove(d)][..0] == [];
    assert UndoAll(u, middle).Some?;
    var v := Undo(u, MoveBack(x, y)).value;
    assert Place(v, [Remove(d)], x, 0) == x;
    assert y + x[|x|..] == y && b + y[|y|..] == b;
    assert Place(u, middle, x, 0) == y;
  }
}
