/**
  The journalled execution of post-install steps. Every method keeps the journal recoverable, whether it
  succeeds or not, and on success changes the formula's side of the tree as the plain interpreter does.
 */
module InstallSteps {
  import opened Text
  import opened FileTree
  import opened FileSystems
  import opened Globs
  import opened StepJournals
  import opened TreeOutcomes
  import opened CopyOutcomes
  import opened LinkOutcomes
  import opened Replacements
  import O = StepOutcomes
  import P = PlainSteps
  import R = RunOutcomes

  // ----- what is apart from the journal directory looks the same with and without it -----

  lemma SeenThrough(t: Tree, journalDir: Path, p: Path)
    requires !(journalDir <= p)
    ensures p in Without(t, journalDir) <==> p in t
    ensures p in t ==> Without(t, journalDir)[p] == t[p]
    ensures CanCreate(Without(t, journalDir), p) == CanCreate(t, p)
  {}

  lemma RenameSeenThrough(t: Tree, journalDir: Path, s: Path, d: Path)
    requires Apart(s, journalDir) && Apart(d, journalDir)
    ensures CanRename(Without(t, journalDir), s, d) == CanRename(t, s, d)
    ensures Without(Renamed(t, s, d), journalDir) == Renamed(Without(t, journalDir), s, d)
  {
    RenameOutside(t, s, d, journalDir);
    assert !(journalDir <= Parent(d));
    forall q | q in t && q != [] && Parent(q) == d
      ensures q in Without(t, journalDir)
    {
      ApartBelow(d, journalDir, q);
    }
    assert HasChildren(Without(t, journalDir), d) == HasChildren(t, d);
  }

  /** What the journal itself rests on is never missing, so missing paths are apart from it. */
  lemma MissingIsApart(t: Tree, log: Log, initial: Tree, journalDir: Path, p: Path)
    requires Settled(t, log, initial, journalDir) && p !in t && !(journalDir <= p)
    ensures Apart(p, journalDir)
  {
    if p <= journalDir && p != journalDir {
      AncestorIn(t, Parent(journalDir), p);
    }
  }

  lemma ViewWellFormed(t: Tree, log: Log, initial: Tree, journalDir: Path)
    requires Settled(t, log, initial, journalDir)
    ensures WellFormed(Without(t, journalDir))
  {}

  // ----- changes at or below the path of the newest record -----

  lemma UpdateBelowTop(t: Tree, log: Log, initial: Tree, journalDir: Path, p: Path, n: Node)
    requires Settled(t, log, initial, journalDir) && WellFormed(t[p := n])
    requires TopRemoves(log).Some? && TopRemoves(log).value <= p && Apart(p, journalDir)
    ensures Settled(t[p := n], log, initial, journalDir)
    ensures Without(t[p := n], journalDir) == Without(t, journalDir)[p := n]
  {
    WithoutUpdate(t, p, n, TopRemoves(log).value);
    WithoutUpdate(t, p, n, journalDir);
    ChangeBelowTop(t, t[p := n], log, initial, journalDir);
  }

  /** `fs::write` to a free path. */
  method WriteBelow(journal: StepJournal, p: Path, content: string) returns (ok: bool)
    requires journal.Valid() && Apart(p, journal.journalDir) && p !in journal.fs.tree
    requires TopRemoves(journal.ToLog()).Some? && TopRemoves(journal.ToLog()).value <= p
    modifies journal.fs`tree
    ensures journal.Valid()
    ensures ok ==> P.Create(old(journal.View()), p, File(content, NEW_FILE_MODE)) == Some(journal.View())
    ensures journal.fs.reliable ==> ok == CanCreate(old(journal.View()), p)
  {
    ghost var before := journal.fs.tree;
    SeenThrough(before, journal.journalDir, p);
    ok := journal.fs.WriteFile(p, content);
    if journal.fs.tree != before {
      ghost var n := journal.fs.tree[p];
      assert journal.fs.tree == before[p := n];
      CreateWellFormed(before, p, n);
      UpdateBelowTop(before, journal.ToLog(), journal.initial, journal.journalDir, p, n);
    }
  }

  method LinkBelow(journal: StepJournal, text: string, p: Path) returns (ok: bool)
    requires journal.Valid() && Apart(p, journal.journalDir)
    requires TopRemoves(journal.ToLog()).Some? && TopRemoves(journal.ToLog()).value <= p
    modifies journal.fs`tree
    ensures journal.Valid()
    ensures ok ==> P.Create(old(journal.View()), p, Link(text)) == Some(journal.View())
    ensures journal.fs.reliable ==> ok == CanCreate(old(journal.View()), p)
  {
    ghost var before := journal.fs.tree;
    SeenThrough(before, journal.journalDir, p);
    if CanCreate(before, p) {
      CreateWellFormed(before, p, Link(text));
      UpdateBelowTop(before, journal.ToLog(), journal.initial, journal.journalDir, p, Link(text));
    }
    ok := journal.fs.Symlink(text, p);
  }

  method CopyFileBelow(journal: StepJournal, source: Path, p: Path) returns (ok: bool)
    requires journal.Valid() && Apart(p, journal.journalDir) && Apart(source, journal.journalDir)
    requires source in journal.fs.tree && journal.fs.tree[source].File?
    requires TopRemoves(journal.ToLog()).Some? && TopRemoves(journal.ToLog()).value <= p
    modifies journal.fs`tree
    ensures journal.Valid()
    ensures ok ==> P.Create(old(journal.View()), p, old(journal.fs.tree)[source]) == Some(journal.View())
    ensures journal.fs.reliable ==> ok == CanCreate(old(journal.View()), p)
  {
    ghost var before := journal.fs.tree;
    SeenThrough(before, journal.journalDir, p);
    ok := journal.fs.CopyFile(source, p);
    if journal.fs.tree != before {
      ghost var n := journal.fs.tree[p];
      assert journal.fs.tree == before[p := n];
      CreateWellFormed(before, p, n);
      UpdateBelowTop(before, journal.ToLog(), journal.initial, journal.journalDir, p, n);
    }
  }

  /** `fs::create_dir` followed by `fs::set_permissions`. */
  method MakeDirBelow(journal: StepJournal, p: Path, mode: nat) returns (ok: bool)
    requires journal.Valid() && Apart(p, journal.journalDir)
    requires TopRemoves(journal.ToLog()).Some? && TopRemoves(journal.ToLog()).value <= p
    modifies journal.fs`tree
    ensures journal.Valid()
    ensures ok ==> P.Create(old(journal.View()), p, Dir(mode)) == Some(journal.View())
    ensures journal.fs.reliable ==> ok == CanCreate(old(journal.View()), p)
  {
    ghost var before := journal.fs.tree;
    SeenThrough(before, journal.journalDir, p);
    if CanCreate(before, p) {
      DirBelowTop(before, journal.ToLog(), journal.initial, journal.journalDir, p, mode);
    }
    hide Settled, Recoverable, Without, TopRemoves;
    ok := journal.fs.CreateDir(p);
    if ok {
      ok := journal.fs.SetMode(p, mode);
    }
  }

  lemma DirBelowTop(t: Tree, log: Log, initial: Tree, journalDir: Path, p: Path, mode: nat)
    requires Settled(t, log, initial, journalDir) && CanCreate(t, p)
    requires TopRemoves(log).Some? && TopRemoves(log).value <= p && Apart(p, journalDir)
    ensures Settled(t[p := Dir(NEW_DIR_MODE)], log, initial, journalDir)
    ensures Settled(t[p := Dir(mode)], log, initial, journalDir)
    ensures Without(t[p := Dir(mode)], journalDir) == Without(t, journalDir)[p := Dir(mode)]
    ensures Chmod(t[p := Dir(NEW_DIR_MODE)], p, mode) == t[p := Dir(mode)]
  {
    CreateWellFormed(t, p, Dir(NEW_DIR_MODE));
    CreateWellFormed(t, p, Dir(mode));
    UpdateBelowTop(t, log, initial, journalDir, p, Dir(NEW_DIR_MODE));
    UpdateBelowTop(t, log, initial, journalDir, p, Dir(mode));
  }

  // ----- directories on the way -----

  /** `fs::create_dir`, recorded once it has succeeded. */
  method MakeDir(journal: StepJournal, p: Path) returns (ok: bool)
    requires journal.Valid() && Apart(p, journal.journalDir)
    modifies journal`inverses, journal.fs`tree
    ensures journal.Valid()
    ensures ok ==> P.Create(old(journal.View()), p, Dir(NEW_DIR_MODE)) == Some(journal.View())
    ensures ok ==> TopRemoves(journal.ToLog()) == Some(p)
    ensures !ok ==> journal.View() == old(journal.View())
    ensures journal.fs.reliable ==> ok == CanCreate(old(journal.View()), p)
  {
    hide Settled, Recoverable, Without;
    ghost var before, log := journal.fs.tree, journal.ToLog();
    SeenThrough(before, journal.journalDir, p);
    WithoutUpdate(before, p, Dir(NEW_DIR_MODE), journal.journalDir);
    ok := journal.fs.CreateDir(p);
    if ok {
      RecordCreated(before, log, journal.initial, journal.journalDir, p, Dir(NEW_DIR_MODE));
      journal.inverses := journal.inverses + [Remove(p)];
    }
  }

  /** Missing ancestors are found upwards and created downwards. */
  lemma MakeParentsBlocked(t: Tree, p: Path, k: nat)
    requires k <= |p| && p[..k] in t && !t[p[..k]].Dir?
    requires forall i | k < i <= |p| :: p[..i] !in t
    ensures P.MakeParents(t, p).None?
    decreases |p|
  {
    if k < |p| {
      assert p[..|p|] == p;
      assert forall i | 0 <= i <= |p| - 1 :: Parent(p)[..i] == p[..i];
      MakeParentsBlocked(t, Parent(p), k);
    } else {
      assert p[..k] == p;
    }
  }

  /** How many components of the path lead to an existing entry, or `None` below a missing root. */
  method ExistingDepth(fs: FileSystem, path: Path) returns (depth: Option<nat>)
    requires WellFormed(fs.tree)
    ensures depth.Some? && depth.value <= |path| && path[..depth.value] in fs.tree
    ensures forall i | depth.value < i <= |path| :: path[..i] !in fs.tree
  {
    var d: nat := |path|;
    while path[..d] !in fs.tree
      invariant d <= |path|
      invariant forall i | d < i <= |path| :: path[..i] !in fs.tree
      decreases d
    {
      d := d - 1;
    }
    depth := Some(d);
  }

  lemma PrefixesSeenThrough(t: Tree, journalDir: Path, path: Path)
    requires !(journalDir <= path)
    ensures forall i | 0 <= i <= |path| ::
              (path[..i] in Without(t, journalDir) <==> path[..i] in t) &&
              (path[..i] in t ==> Without(t, journalDir)[path[..i]] == t[path[..i]])
  {}

  method CreateParents(journal: StepJournal, path: Path) returns (ok: bool)
    requires journal.Valid() && !(journal.journalDir <= path)
    modifies journal`inverses, journal.fs`tree
    ensures journal.Valid()
    ensures ok ==> P.MakeParents(old(journal.View()), path) == Some(journal.View())
    ensures ok ==> TopRemoves(journal.ToLog()) == old(TopRemoves(journal.ToLog())) ||
                   TopRemoves(journal.ToLog()) == Some(path)
    ensures journal.fs.reliable ==> ok == P.MakeParents(old(journal.View()), path).Some?
    ensures ok ==> WithDirs(old(journal.View()), journal.View(), path)
    ensures journal.fs.reliable ==> (ok <==> DirsDownTo(old(journal.View()), path))
  {
    ViewWellFormed(journal.fs.tree, journal.ToLog(), journal.initial, journal.journalDir);
    ParentsMade(journal.View(), path);
    var found := ExistingDepth(journal.fs, path);
    PrefixesSeenThrough(journal.fs.tree, journal.journalDir, path);
    if !journal.fs.tree[path[..found.value]].Dir? {
      MakeParentsBlocked(journal.View(), path, found.value);
      return false;
    }
    ok := CreateMissing(journal, path, found.value);
  }

  method CreateMissing(journal: StepJournal, path: Path, lowest: nat) returns (ok: bool)
    requires journal.Valid() && !(journal.journalDir <= path)
    requires ReadyBelow(journal.fs.tree, path, lowest)
    modifies journal`inverses, journal.fs`tree
    ensures journal.Valid()
    ensures ok ==> P.MakeParents(old(journal.View()), path) == Some(journal.View())
    ensures ok ==> TopRemoves(journal.ToLog()) == old(TopRemoves(journal.ToLog())) ||
                   TopRemoves(journal.ToLog()) == Some(path)
    ensures journal.fs.reliable ==> ok
  {
    hide Settled, Recoverable;
    ghost var view, top := journal.View(), TopRemoves(journal.ToLog());
    PrefixesSeenThrough(journal.fs.tree, journal.journalDir, path);
    var depth := lowest;
    assert path[..|path|] == path;
    while depth < |path|
      invariant lowest <= depth <= |path|
      invariant journal.Valid() && ReadyBelow(journal.fs.tree, path, depth)
      invariant P.MakeParents(view, path[..depth]) == Some(journal.View())
      invariant TopRemoves(journal.ToLog()) == if depth == lowest then top else Some(path[..depth])
    {
      var made := CreateNext(journal, path, depth);
      if !made {
        return false;
      }
      MakeParentsStep(view, path, depth);
      depth := depth + 1;
    }
    return true;
  }

  /** The first `depth` components lead to a directory and nothing beyond exists. */
  ghost predicate ReadyBelow(t: Tree, path: Path, depth: nat) {
    && depth <= |path| && path[..depth] in t && t[path[..depth]].Dir?
    && forall i | depth < i <= |path| :: path[..i] !in t
  }

  lemma MakeParentsStep(t: Tree, path: Path, depth: nat)
    requires depth < |path| && path[..depth + 1] !in t && P.MakeParents(t, path[..depth]).Some?
    ensures P.MakeParents(t, path[..depth + 1]) ==
            P.Create(P.MakeParents(t, path[..depth]).value, path[..depth + 1], Dir(NEW_DIR_MODE))
  {
    assert Parent(path[..depth + 1]) == path[..depth];
  }

  method CreateNext(journal: StepJournal, path: Path, depth: nat) returns (ok: bool)
    requires journal.Valid() && !(journal.journalDir <= path)
    requires depth < |path| && ReadyBelow(journal.fs.tree, path, depth)
    modifies journal`inverses, journal.fs`tree
    ensures journal.Valid()
    ensures ok ==> P.Create(old(journal.View()), path[..depth + 1], Dir(NEW_DIR_MODE)) == Some(journal.View())
    ensures ok ==> TopRemoves(journal.ToLog()) == Some(path[..depth + 1])
    ensures ok ==> ReadyBelow(journal.fs.tree, path, depth + 1)
    ensures journal.fs.reliable ==> ok
  {
    ghost var before := journal.fs.tree;
    var next := path[..depth + 1];
    assert Parent(next) == path[..depth];
    assert next <= path;
    MissingIsApart(before, journal.ToLog(), journal.initial, journal.journalDir, next);
    SeenThrough(before, journal.journalDir, next);
    ok := MakeDir(journal, next);
    if ok {
      OnlyAdded(before, journal.fs.tree, journal.journalDir, path, depth);
    }
  }

  /** Seen from outside, one new directory on the way is the only change. */
  lemma OnlyAdded(before: Tree, after: Tree, journalDir: Path, path: Path, depth: nat)
    requires depth < |path| && !(journalDir <= path)
    requires Without(after, journalDir) == Without(before, journalDir)[path[..depth + 1] := Dir(NEW_DIR_MODE)]
    requires forall i | depth < i <= |path| :: path[..i] !in before
    ensures path[..depth + 1] in after && after[path[..depth + 1]].Dir?
    ensures forall i | depth + 1 < i <= |path| :: path[..i] !in after
  {
    PrefixesSeenThrough(before, journalDir, path);
    PrefixesSeenThrough(after, journalDir, path);
    assert forall i | depth + 1 < i <= |path| :: path[..i] != path[..depth + 1];
  }

  method CreateParent(journal: StepJournal, path: Path) returns (ok: bool)
    requires journal.Valid() && Apart(path, journal.journalDir)
    modifies journal`inverses, journal.fs`tree
    ensures journal.Valid()
    ensures ok ==> P.MakeParent(old(journal.View()), path) == Some(journal.View())
    ensures ok ==> TopRemoves(journal.ToLog()) == old(TopRemoves(journal.ToLog())) ||
                   TopRemoves(journal.ToLog()) == Some(Parent(path))
    ensures journal.fs.reliable ==> ok == P.MakeParent(old(journal.View()), path).Some?
  {
    assert !(journal.journalDir <= Parent(path)) by {
      assert Parent(path) <= path;
    }
    ok := CreateParents(journal, Parent(path));
  }

  lemma {:induction false} MakeParentsKeeps(t: Tree, p: Path, q: Path)
    requires P.MakeParents(t, p).Some?
    ensures !(q <= p) ==> (q in P.MakeParents(t, p).value <==> q in t)
    ensures q in t ==> q in P.MakeParents(t, p).value && P.MakeParents(t, p).value[q] == t[q]
    decreases |p|
  {
    if p !in t {
      assert Parent(p) <= p;
      MakeParentsKeeps(t, Parent(p), q);
    }
  }

  // ----- files and links -----

  /** The common end of `write` and `inreplace`: make room, make the parents, write the file. */
  method PutFile(journal: StepJournal, index: nat, path: Path, content: string) returns (ok: bool)
    requires journal.Valid() && Apart(path, journal.journalDir)
    modifies journal`root, journal`nextBackup, journal`inverses, journal.fs`tree
    ensures journal.Valid()
    ensures ok ==> P.PutFile(old(journal.View()), path, content) == Some(journal.View())
    ensures journal.fs.reliable ==> ok == P.PutFile(old(journal.View()), path, content).Some?
    ensures ok ==> Placed(old(journal.View()), journal.View(), path, File(content, NEW_FILE_MODE))
    ensures journal.fs.reliable ==> (ok <==> RoomAt(old(journal.View()), path))
  {
    hide Settled, Recoverable, Placed, RoomAt;
    ViewWellFormed(journal.fs.tree, journal.ToLog(), journal.initial, journal.journalDir);
    FilePut(journal.View(), path, content);
    ok := journal.ReplaceBeforeMutation(index, path);
    if !ok {
      return;
    }
    ghost var view := journal.View();
    SeenThrough(journal.fs.tree, journal.journalDir, path);
    ok := CreateParent(journal, path);
    if !ok {
      return;
    }
    MakeParentsKeeps(view, Parent(path), path);
    SeenThrough(journal.fs.tree, journal.journalDir, path);
    ok := WriteBelow(journal, path, content);
  }

  method CreateLink(journal: StepJournal, index: nat, text: string, destination: Path, force: bool) returns (ok: bool)
    requires journal.Valid() && Apart(destination, journal.journalDir)
    modifies journal`root, journal`nextBackup, journal`inverses, journal.fs`tree
    ensures journal.Valid()
    ensures ok ==> P.PutLink(old(journal.View()), text, destination, force) == Some(journal.View())
    ensures journal.fs.reliable ==> ok == P.PutLink(old(journal.View()), text, destination, force).Some?
    ensures ok ==> Placed(old(journal.View()), journal.View(), destination, Link(text))
    ensures journal.fs.reliable ==> (ok <==> RoomAt(old(journal.View()), destination) && (destination in old(journal.View()) ==> force))
  {
    hide Settled, Recoverable, Placed, RoomAt;
    ViewWellFormed(journal.fs.tree, journal.ToLog(), journal.initial, journal.journalDir);
    LinkPut(journal.View(), text, destination, force);
    ok := CreateParent(journal, destination);
    if !ok {
      return;
    }
    SeenThrough(journal.fs.tree, journal.journalDir, destination);
    if destination in journal.fs.tree && !force {
      return false;
    }
    ok := journal.ReplaceBeforeMutation(index, destination);
    if !ok {
      return;
    }
    ok := LinkBelow(journal, text, destination);
  }

  // ----- copies -----

  method CopyEntry(journal: StepJournal, source: Path, destination: Path, recursive: bool) returns (ok: bool)
    requires journal.Valid() && Apart(source, journal.journalDir) && Apart(destination, journal.journalDir)
    requires TopRemoves(journal.ToLog()).Some? && TopRemoves(journal.ToLog()).value <= destination
    modifies journal.fs`tree
    ensures journal.Valid()
    ensures ok ==> P.CopyTree(old(journal.View()), source, destination, recursive) == Some(journal.View())
    ensures journal.fs.reliable ==> ok == P.CopyTree(old(journal.View()), source, destination, recursive).Some?
    decreases P.Depth(source), 1, 0
  {
    hide Settled, Recoverable;
    SeenThrough(journal.fs.tree, journal.journalDir, source);
    if source !in journal.fs.tree {
      return false;
    }
    match journal.fs.tree[source] {
      case Link(text) =>
        ok := LinkBelow(journal, text, destination);
      case File(_, _) =>
        ok := CopyFileBelow(journal, source, destination);
      case Dir(mode) =>
        if !recursive {
          return false;
        }
        ok := MakeDirBelow(journal, destination, mode);
        if !ok {
          return;
        }
        ListingOutside(journal.fs.tree, source, journal.journalDir);
        var names := journal.fs.ReadDir(source);
        if names.None? {
          return false;
        }
        ok := CopyChildren(journal, source, destination, names.value);
    }
  }

  method CopyChildren(journal: StepJournal, source: Path, destination: Path, names: seq<string>) returns (ok: bool)
    requires journal.Valid() && Apart(source, journal.journalDir) && Apart(destination, journal.journalDir)
    requires TopRemoves(journal.ToLog()).Some? && TopRemoves(journal.ToLog()).value <= destination
    requires |source| <= MAX_DEPTH
    modifies journal.fs`tree
    ensures journal.Valid()
    ensures ok ==> P.CopyAll(old(journal.View()), source, destination, names) == Some(journal.View())
    ensures journal.fs.reliable ==> ok == P.CopyAll(old(journal.View()), source, destination, names).Some?
    decreases P.Depth(source), 0, |names|
  {
    hide Settled, Recoverable;
    ghost var view := journal.View();
    var i := 0;
    assert names[0..] == names;
    while i < |names|
      invariant 0 <= i <= |names|
      invariant journal.Valid()
      invariant P.CopyAll(view, source, destination, names) == P.CopyAll(journal.View(), source, destination, names[i..])
    {
      assert names[i..][0] == names[i] && names[i..][1..] == names[i + 1..];
      ApartBelow(source, journal.journalDir, source + [names[i]]);
      ApartBelow(destination, journal.journalDir, destination + [names[i]]);
      ok := CopyEntry(journal, source + [names[i]], destination + [names[i]], true);
      if !ok {
        return;
      }
      i := i + 1;
    }
    return true;
  }

  // ----- trees of links -----

  method LinkTree(journal: StepJournal, index: nat, source: Path, target: Path) returns (ok: bool)
    requires journal.Valid() && Apart(source, journal.journalDir) && Apart(target, journal.journalDir)
    modifies journal`root, journal`nextBackup, journal`inverses, journal.fs`tree
    ensures journal.Valid()
    ensures ok ==> P.LinkTree(old(journal.View()), source, target) == Some(journal.View())
    ensures journal.fs.reliable ==> ok == P.LinkTree(old(journal.View()), source, target).Some?
    decreases P.Depth(source), 1, 0
  {
    hide Settled, Recoverable;
    ok := CreateParents(journal, target);
    if !ok {
      return;
    }
    ListingOutside(journal.fs.tree, source, journal.journalDir);
    var names := journal.fs.ReadDir(source);
    if names.None? {
      return false;
    }
    ok := LinkAll(journal, index, source, target, names.value);
  }

  method LinkAll(journal: StepJournal, index: nat, source: Path, target: Path, names: seq<string>) returns (ok: bool)
    requires journal.Valid() && Apart(source, journal.journalDir) && Apart(target, journal.journalDir)
    requires |source| <= MAX_DEPTH
    modifies journal`root, journal`nextBackup, journal`inverses, journal.fs`tree
    ensures journal.Valid()
    ensures ok ==> P.LinkAll(old(journal.View()), source, target, names) == Some(journal.View())
    ensures journal.fs.reliable ==> ok == P.LinkAll(old(journal.View()), source, target, names).Some?
    decreases P.Depth(source), 0, 1
  {
    hide Settled, Recoverable;
    ghost var view := journal.View();
    var i := 0;
    assert names[0..] == names;
    while i < |names|
      invariant 0 <= i <= |names|
      invariant journal.Valid()
      invariant P.LinkAll(view, source, target, names) == P.LinkAll(journal.View(), source, target, names[i..])
    {
      assert names[i..][0] == names[i] && names[i..][1..] == names[i + 1..];
      ok := LinkChild(journal, index, source, target, names[i], names[i..]);
      if !ok {
        return;
      }
      i := i + 1;
    }
    return true;
  }

  /** One child of a linked directory; `names` are the children still to do, this one first. */
  method LinkChild(journal: StepJournal, index: nat, source: Path, target: Path, name: string, ghost names: seq<string>)
    returns (ok: bool)
    requires journal.Valid() && Apart(source, journal.journalDir) && Apart(target, journal.journalDir)
    requires |source| <= MAX_DEPTH && names != [] && names[0] == name
    modifies journal`root, journal`nextBackup, journal`inverses, journal.fs`tree
    ensures journal.Valid()
    ensures ok ==> P.LinkAll(old(journal.View()), source, target, names) == P.LinkAll(journal.View(), source, target, names[1..])
    ensures journal.fs.reliable && !ok ==> P.LinkAll(old(journal.View()), source, target, names).None?
    decreases P.Depth(source), 0, 0
  {
    hide Settled, Recoverable;
    if name == ".DS_Store" {
      return true;
    }
    var child, destination := source + [name], target + [name];
    ApartBelow(source, journal.journalDir, child);
    ApartBelow(target, journal.journalDir, destination);
    SeenThrough(journal.fs.tree, journal.journalDir, child);
    SeenThrough(journal.fs.tree, journal.journalDir, destination);
    if child !in journal.fs.tree {
      return false;
    }
    if journal.fs.tree[child].Dir? {
      ok := LinkDirectory(journal, index, child, destination);
    } else {
      ok := CreateLink(journal, index, P.PathText(child), destination, true);
    }
  }

  method LinkDirectory(journal: StepJournal, index: nat, child: Path, destination: Path) returns (ok: bool)
    requires journal.Valid() && Apart(child, journal.journalDir) && Apart(destination, journal.journalDir)
    modifies journal`root, journal`nextBackup, journal`inverses, journal.fs`tree
    ensures journal.Valid()
    ensures ok ==> P.LinkDirectory(old(journal.View()), child, destination) == Some(journal.View())
    ensures journal.fs.reliable ==> ok == P.LinkDirectory(old(journal.View()), child, destination).Some?
    decreases P.Depth(child), 2, 0
  {
    hide Settled, Recoverable, P.LinkTree;
    SeenThrough(journal.fs.tree, journal.journalDir, destination);
    if destination in journal.fs.tree && !journal.fs.tree[destination].Dir? {
      ok := journal.ReplaceBeforeMutation(index, destination);
      if !ok {
        return;
      }
    }
    ok := CreateParents(journal, destination);
    if !ok {
      return;
    }
    ok := LinkTree(journal, index, child, destination);
  }

  // ----- permissions -----

  method SetModeRecursive(journal: StepJournal, path: Path, mode: nat, nonRecursive: bool) returns (ok: bool)
    requires journal.Valid() && Apart(path, journal.journalDir)
    modifies journal`inverses, journal.fs`tree
    ensures journal.Valid()
    ensures ok ==> P.ChmodTree(old(journal.View()), path, mode, nonRecursive) == Some(journal.View())
    ensures journal.fs.reliable ==> ok == P.ChmodTree(old(journal.View()), path, mode, nonRecursive).Some?
    decreases P.Depth(path), 1
  {
    SeenThrough(journal.fs.tree, journal.journalDir, path);
    if path !in journal.fs.tree {
      return false;
    }
    if journal.fs.tree[path].Link? {
      return true;
    }
    var isDir := journal.fs.tree[path].Dir?;
    ok := SetModeRecorded(journal, path, mode);
    if !ok || !isDir || nonRecursive {
      return;
    }
    ListingOutside(journal.fs.tree, path, journal.journalDir);
    var names := journal.fs.ReadDir(path);
    if names.None? {
      return false;
    }
    ok := SetModeEach(journal, path, mode, names.value);
  }

  /** The old mode is recorded before the new one is set. */
  method SetModeRecorded(journal: StepJournal, path: Path, mode: nat) returns (ok: bool)
    requires journal.Valid() && Apart(path, journal.journalDir) && CanChmod(journal.fs.tree, path)
    modifies journal`inverses, journal.fs`tree
    ensures journal.Valid()
    ensures ok ==> CanChmod(old(journal.View()), path) && journal.View() == Chmod(old(journal.View()), path, mode)
    ensures journal.fs.reliable ==> ok
  {
    hide Settled, Recoverable, Without;
    ModeRecorded(journal.fs.tree, journal.ToLog(), journal.initial, journal.journalDir, path, mode);
    journal.inverses := journal.inverses + [Mode(path, journal.fs.tree[path].mode)];
    ok := journal.fs.SetMode(path, mode);
  }

  lemma ModeRecorded(t: Tree, log: Log, initial: Tree, journalDir: Path, path: Path, mode: nat)
    requires Settled(t, log, initial, journalDir) && Apart(path, journalDir) && CanChmod(t, path)
    ensures Settled(t, Push(log, Mode(path, t[path].mode)), initial, journalDir)
    ensures Settled(Chmod(t, path, mode), Push(log, Mode(path, t[path].mode)), initial, journalDir)
    ensures CanChmod(Without(t, journalDir), path)
    ensures Without(Chmod(t, path, mode), journalDir) == Chmod(Without(t, journalDir), path, mode)
  {
    SeenThrough(t, journalDir, path);
    RecordMode(t, log, initial, journalDir, path);
    ChmodRecorded(t, log, initial, journalDir, path, t[path].mode, mode);
    WithoutUpdate(t, path, Chmod(t, path, mode)[path], journalDir);
  }

  method SetModeEach(journal: StepJournal, path: Path, mode: nat, names: seq<string>) returns (ok: bool)
    requires journal.Valid() && Apart(path, journal.journalDir) && |path| <= MAX_DEPTH
    modifies journal`inverses, journal.fs`tree
    ensures journal.Valid()
    ensures ok ==> P.ChmodAll(old(journal.View()), path, mode, names) == Some(journal.View())
    ensures journal.fs.reliable ==> ok == P.ChmodAll(old(journal.View()), path, mode, names).Some?
    decreases P.Depth(path), 0
  {
    hide Settled, Recoverable;
    ghost var view := journal.View();
    var i := 0;
    assert names[0..] == names;
    while i < |names|
      invariant 0 <= i <= |names|
      invariant journal.Valid()
      invariant P.ChmodAll(view, path, mode, names) == P.ChmodAll(journal.View(), path, mode, names[i..])
    {
      assert names[i..][0] == names[i] && names[i..][1..] == names[i + 1..];
      ApartBelow(path, journal.journalDir, path + [names[i]]);
      ok := SetModeRecursive(journal, path + [names[i]], mode, false);
      if !ok {
        return;
      }
      i := i + 1;
    }
    return true;
  }

  // ----- moves -----

  /** The move back is recorded before the move. */
  method RenameRecorded(journal: StepJournal, source: Path, destination: Path) returns (ok: bool)
    requires journal.Valid() && Apart(source, journal.journalDir) && Apart(destination, journal.journalDir)
    requires destination !in journal.fs.tree
    modifies journal`inverses, journal.fs`tree
    ensures journal.Undoable() && (ok ==> journal.Valid())
    ensures ok ==> P.Rename(old(journal.View()), source, destination) == Some(journal.View())
    ensures journal.fs.reliable ==> ok == CanRename(old(journal.View()), source, destination)
    ensures journal.inverses == old(journal.inverses) + [MoveBack(source, destination)]
  {
    hide Settled, Recoverable, WellFormed, CanRename, Renamed, Without;
    RenameOutcome(journal.fs.tree, journal.ToLog(), journal.initial, journal.journalDir, source, destination);
    journal.inverses := journal.inverses + [MoveBack(source, destination)];
    ok := journal.fs.Rename(source, destination);
  }

  lemma RenameOutcome(t: Tree, log: Log, initial: Tree, journalDir: Path, s: Path, d: Path)
    requires Settled(t, log, initial, journalDir) && Apart(s, journalDir) && Apart(d, journalDir) && d !in t
    ensures Recoverable(t, Push(log, MoveBack(s, d)), initial, journalDir)
    ensures CanRename(t, s, d) ==>
              && Settled(Renamed(t, s, d), Push(log, MoveBack(s, d)), initial, journalDir)
              && Recoverable(Renamed(t, s, d), Push(log, MoveBack(s, d)), initial, journalDir)
    ensures CanRename(Without(t, journalDir), s, d) == CanRename(t, s, d)
    ensures Without(Renamed(t, s, d), journalDir) == Renamed(Without(t, journalDir), s, d)
  {
    hide Settled, Recoverable, CanRename, Renamed;
    RecordMoveBack(t, log, initial, journalDir, s, d);
    if CanRename(t, s, d) {
      MoveRecorded(t, log, initial, journalDir, s, d);
      SettledRecoverable(Renamed(t, s, d), Push(log, MoveBack(s, d)), initial, journalDir);
    }
    RenameSeenThrough(t, journalDir, s, d);
  }

  /** Makes room by a backup, recorded with it. */
  method BackUpRecorded(journal: StepJournal, index: nat, path: Path, replaced: bool) returns (ok: bool)
    requires journal.Valid() && Apart(path, journal.journalDir) && path in journal.fs.tree
    modifies journal`root, journal`nextBackup, journal`inverses, journal.fs`tree
    ensures journal.Valid()
    ensures ok ==> path !in journal.fs.tree && journal.View() == Without(old(journal.View()), path)
    ensures journal.fs.reliable ==> ok
    ensures !ok ==> journal.inverses == old(journal.inverses)
    ensures ok ==> exists backup ::
              journal.inverses == old(journal.inverses) + [if replaced then Replace(path, backup) else Restore(path, backup)]
  {
    hide Settled, Recoverable;
    var backup := journal.Backup(index, path);
    if backup.None? {
      return false;
    }
    journal.inverses := journal.inverses + [if replaced then Replace(path, backup.value) else Restore(path, backup.value)];
    return true;
  }

  method ExecuteMove(journal: StepJournal, index: nat, source: Path, target: Path, replace: bool) returns (ok: bool)
    requires journal.Valid() && Apart(source, journal.journalDir) && Apart(target, journal.journalDir)
    modifies journal`root, journal`nextBackup, journal`inverses, journal.fs`tree
    ensures journal.Undoable() && (ok ==> journal.Valid())
    ensures ok ==> P.PlainMove(old(journal.View()), source, target, replace) == Some(journal.View())
    ensures journal.fs.reliable ==> ok == P.PlainMove(old(journal.View()), source, target, replace).Some?
    ensures ok ==> Moved(old(journal.View()), journal.View(), source, LandsAt(old(journal.View()), source, target))
    ensures journal.fs.reliable ==> (ok <==> CanMove(old(journal.View()), source, target, replace))
    ensures ok ==>
      var d, n := LandsAt(old(journal.View()), source, target), |journal.inverses|;
      && n > 0 && journal.inverses[n - 1] == MoveBack(source, d)
      && (d in old(journal.View()) ==> n > 1 && journal.inverses[n - 2].Replace? && journal.inverses[n - 2].path == d)
  {
    hide Settled, Recoverable, WellFormed, Moved, CanMove, LandsAt, CanRename, P.MakeParents, P.DestinationFor;
    ViewWellFormed(journal.fs.tree, journal.ToLog(), journal.initial, journal.journalDir);
    ghost var before := journal.View();
    MoveDone(before, source, target, replace);
    ok := CreateParent(journal, target);
    if !ok {
      return;
    }
    DestinationLands(before, journal.View(), source, target);
    var destination := Destination(journal, source, target);
    ViewWellFormed(journal.fs.tree, journal.ToLog(), journal.initial, journal.journalDir);
    if destination in journal.fs.tree {
      if !replace {
        return false;
      }
      ok := BackUpRecorded(journal, index, destination, true);
      if !ok {
        return;
      }
    } else {
      AbsentWithout(journal.View(), destination);
    }
    ok := RenameRecorded(journal, source, destination);
  }

  lemma DestinationLands(t: Tree, u: Tree, source: Path, target: Path)
    requires WellFormed(t) && target != [] && P.MakeParents(t, Parent(target)) == Some(u)
    ensures P.DestinationFor(u, source, target) == LandsAt(t, source, target)
    ensures LandsAt(t, source, target) in t ==> LandsAt(t, source, target) in u
  {
    ParentMade(t, target);
  }

  /** An existing directory as target means "into it". */
  method Destination(journal: StepJournal, source: Path, target: Path) returns (destination: Path)
    requires Apart(source, journal.journalDir) && Apart(target, journal.journalDir)
    ensures destination == P.DestinationFor(journal.View(), source, target)
    ensures Apart(destination, journal.journalDir)
    ensures destination in journal.fs.tree <==> destination in journal.View()
  {
    SeenThrough(journal.fs.tree, journal.journalDir, target);
    destination := P.DestinationFor(journal.fs.tree, source, target);
    ApartBelow(target, journal.journalDir, destination);
    SeenThrough(journal.fs.tree, journal.journalDir, destination);
  }

  method ExecuteMoveChildren(journal: StepJournal, source: Path, target: Path) returns (ok: bool)
    requires journal.Valid() && Apart(source, journal.journalDir) && Apart(target, journal.journalDir)
    modifies journal`inverses, journal.fs`tree
    ensures journal.Undoable() && (ok ==> journal.Valid())
    ensures ok ==> P.PlainMoveChildren(old(journal.View()), source, target) == Some(journal.View())
    ensures journal.fs.reliable ==> ok == P.PlainMoveChildren(old(journal.View()), source, target).Some?
    ensures ok ==>
      var u := DirsMade(old(journal.View()), target);
      forall q :: ShiftedAt(u, journal.View(), source, target, O.NamesIn(u, source), q)
    ensures journal.fs.reliable ==> 
      var u := DirsMade(old(journal.View()), target);
      ok <==> DirsDownTo(old(journal.View()), target) && O.Openable(u, source) && MayShift(u, source, target, O.NamesIn(u, source))
  {
    hide Settled, Recoverable, ShiftedAt, MayShift, O.NamesIn, O.Openable, DirsDownTo, DirsMade;
    ViewWellFormed(journal.fs.tree, journal.ToLog(), journal.initial, journal.journalDir);
    O.ChildrenMoved(journal.View(), source, target);
    ok := CreateParents(journal, target);
    if !ok {
      return;
    }
    ListingOutside(journal.fs.tree, source, journal.journalDir);
    var names := journal.fs.ReadDir(source);
    if names.None? {
      return false;
    }
    ok := MoveEach(journal, source, target, names.value);
  }

  method MoveEach(journal: StepJournal, source: Path, target: Path, names: seq<string>) returns (ok: bool)
    requires journal.Valid() && Apart(source, journal.journalDir) && Apart(target, journal.journalDir)
    modifies journal`inverses, journal.fs`tree
    ensures journal.Undoable() && (ok ==> journal.Valid())
    ensures ok ==> P.MoveAll(old(journal.View()), source, target, names) == Some(journal.View())
    ensures journal.fs.reliable ==> ok == P.MoveAll(old(journal.View()), source, target, names).Some?
  {
    hide Settled, Recoverable, CanRename, WellFormed;
    ghost var view := journal.View();
    var i := 0;
    assert names[0..] == names;
    while i < |names|
      invariant 0 <= i <= |names|
      invariant journal.Valid()
      invariant P.MoveAll(view, source, target, names) == P.MoveAll(journal.View(), source, target, names[i..])
    {
      assert names[i..][0] == names[i] && names[i..][1..] == names[i + 1..];
      var child, destination := source + [names[i]], target + [names[i]];
      ApartBelow(source, journal.journalDir, child);
      ApartBelow(target, journal.journalDir, destination);
      SeenThrough(journal.fs.tree, journal.journalDir, destination);
      if child != target {
        if destination in journal.fs.tree {
          return false;
        }
        ok := RenameRecorded(journal, child, destination);
        if !ok {
          return;
        }
      }
      i := i + 1;
    }
    return true;
  }

  // ----- the other steps -----

  method ExecuteCopy(journal: StepJournal, index: nat, source: Path, target: Path, recursive: bool, overwrite: bool)
    returns (ok: bool)
    requires journal.Valid() && Apart(source, journal.journalDir) && Apart(target, journal.journalDir)
    modifies journal`root, journal`nextBackup, journal`inverses, journal.fs`tree
    ensures journal.Valid()
    ensures ok ==> P.PlainCopy(old(journal.View()), source, target, recursive, overwrite) == Some(journal.View())
    ensures journal.fs.reliable ==> ok == P.PlainCopy(old(journal.View()), source, target, recursive, overwrite).Some?
    ensures ok ==> Copied(old(journal.View()), journal.View(), source, LandsAt(old(journal.View()), source, target))
    ensures journal.fs.reliable ==> (ok <==> CanCopy(old(journal.View()), source, target, recursive, overwrite))
  {
    hide Settled, Recoverable, Copied, CanCopy, LandsAt;
    ViewWellFormed(journal.fs.tree, journal.ToLog(), journal.initial, journal.journalDir);
    CopyFinished(journal.View(), source, target, recursive, overwrite);
    ok := CreateParent(journal, target);
    if !ok {
      return;
    }
    var destination := Destination(journal, source, target);
    if destination in journal.fs.tree && !overwrite {
      return false;
    }
    ok := journal.ReplaceBeforeMutation(index, destination);
    if !ok {
      return;
    }
    ok := CopyEntry(journal, source, destination, recursive);
  }

  /** What is recorded since puts backups back and does nothing else. */
  ghost predicate OnlyRestores(before: seq<Inverse>, now: seq<Inverse>) {
    before <= now && forall i | |before| <= i < |now| :: now[i].Restore?
  }

  lemma MoreRestores(before: seq<Inverse>, between: seq<Inverse>, now: seq<Inverse>)
    requires OnlyRestores(before, between) && OnlyRestores(between, now)
    ensures OnlyRestores(before, now)
  {}

  lemma NothingRecorded(before: seq<Inverse>)
    ensures OnlyRestores(before, before)
  {}

  method RemoveEach(journal: StepJournal, index: nat, paths: seq<Path>, recursive: bool, link: Option<string>, content: Option<string>)
    returns (ok: bool)
    requires journal.Valid() && forall p | p in paths :: Apart(p, journal.journalDir)
    modifies journal`root, journal`nextBackup, journal`inverses, journal.fs`tree
    ensures journal.Valid()
    ensures OnlyRestores(old(journal.inverses), journal.inverses)
    ensures ok ==> P.RemoveEach(old(journal.View()), paths, recursive, link, content) == Some(journal.View())
    ensures journal.fs.reliable ==> ok == P.RemoveEach(old(journal.View()), paths, recursive, link, content).Some?
  {
    hide Settled, Recoverable;
    ghost var view := journal.View();
    var i := 0;
    assert paths[0..] == paths;
    while i < |paths|
      invariant 0 <= i <= |paths|
      invariant journal.Valid()
      invariant OnlyRestores(old(journal.inverses), journal.inverses)
      invariant P.RemoveEach(view, paths, recursive, link, content) ==
                P.RemoveEach(journal.View(), paths[i..], recursive, link, content)
    {
      var path := paths[i];
      assert path in paths;
      assert paths[i..][0] == path && paths[i..][1..] == paths[i + 1..];
      SeenThrough(journal.fs.tree, journal.journalDir, path);
      if path in journal.fs.tree && P.Selected(journal.fs.tree[path], link, content) {
        if journal.fs.tree[path].Dir? && !recursive {
          return false;
        }
        ok := BackUpRecorded(journal, index, path, false);
        if !ok {
          return;
        }
      }
      i := i + 1;
    }
    return true;
  }

  /** Expands a pattern that cannot reach the journal directory. */
  method ExpandApart(journal: StepJournal, pattern: Path) returns (paths: Option<seq<Path>>)
    requires journal.Valid() && Avoids(pattern, journal.journalDir)
    ensures paths.Some? ==> paths == Expand(journal.View(), pattern)
    ensures paths.Some? ==> forall p | p in paths.value :: Apart(p, journal.journalDir)
    ensures journal.fs.reliable ==> paths == Expand(journal.View(), pattern)
  {
    ExpandOutside(journal.fs.tree, pattern, journal.journalDir);
    paths := ExpandGlob(journal.fs, pattern);
  }

  method RemoveMatching(journal: StepJournal, index: nat, pattern: Path, recursive: bool, link: Option<string>, content: Option<string>)
    returns (ok: bool)
    requires journal.Valid() && Avoids(pattern, journal.journalDir)
    modifies journal`root, journal`nextBackup, journal`inverses, journal.fs`tree
    ensures journal.Valid()
    ensures OnlyRestores(old(journal.inverses), journal.inverses)
    ensures ok ==> P.RemoveMatching(old(journal.View()), pattern, recursive, link, content) == Some(journal.View())
    ensures journal.fs.reliable ==> ok == P.RemoveMatching(old(journal.View()), pattern, recursive, link, content).Some?
  {
    hide Settled, Recoverable;
    var paths := ExpandApart(journal, pattern);
    if paths.None? {
      return false;
    }
    ok := RemoveEach(journal, index, paths.value, recursive, link, content);
  }

  method ExecuteRemove(journal: StepJournal, index: nat, patterns: seq<Path>, recursive: bool, link: Option<string>, content: Option<string>)
    returns (ok: bool)
    requires journal.Valid() && forall p | p in patterns :: Avoids(p, journal.journalDir)
    modifies journal`root, journal`nextBackup, journal`inverses, journal.fs`tree
    ensures journal.Valid()
    ensures OnlyRestores(old(journal.inverses), journal.inverses)
    ensures ok ==> P.RemoveAll(old(journal.View()), patterns, recursive, link, content) == Some(journal.View())
    ensures journal.fs.reliable ==> ok == P.RemoveAll(old(journal.View()), patterns, recursive, link, content).Some?
    ensures ok ==> MatchesLost(old(journal.View()), journal.View(), patterns, link, content)
    ensures ok ==> MayRemoveMatches(old(journal.View()), patterns, recursive, link, content)
    ensures journal.fs.reliable ==> (forall p | p in patterns :: ReadableFrom(old(journal.View()), p, 0)) ==>
              (ok <==> MayRemoveMatches(old(journal.View()), patterns, recursive, link, content))
  {
    hide Settled, Recoverable, OnlyRestores, P.RemoveMatching, MatchesLost, MayRemoveMatches, ReadableFrom;
    ViewWellFormed(journal.fs.tree, journal.ToLog(), journal.initial, journal.journalDir);
    PatternsRemoved(journal.View(), patterns, recursive, link, content);
    O.CanBeRemoved(journal.View(), patterns, recursive, link, content);
    ghost var view := journal.View();
    NothingRecorded(journal.inverses);
    var i := 0;
    assert patterns[0..] == patterns;
    while i < |patterns|
      invariant 0 <= i <= |patterns|
      invariant journal.Valid()
      invariant OnlyRestores(old(journal.inverses), journal.inverses)
      invariant P.RemoveAll(view, patterns, recursive, link, content) ==
                P.RemoveAll(journal.View(), patterns[i..], recursive, link, content)
    {
      assert patterns[i..][0] == patterns[i] && patterns[i..][1..] == patterns[i + 1..];
      assert patterns[i] in patterns;
      ghost var between := journal.inverses;
      ok := RemoveMatching(journal, index, patterns[i], recursive, link, content);
      MoreRestores(old(journal.inverses), between, journal.inverses);
      if !ok {
        return;
      }
      i := i + 1;
    }
    return true;
  }

  method ExecuteInreplace(journal: StepJournal, index: nat, path: Path, before: string, after: string, firstOnly: bool)
    returns (ok: bool)
    requires journal.Valid() && Apart(path, journal.journalDir)
    modifies journal`root, journal`nextBackup, journal`inverses, journal.fs`tree
    ensures journal.Valid()
    ensures ok ==> P.PlainInreplace(old(journal.View()), path, before, after, firstOnly) == Some(journal.View())
    ensures journal.fs.reliable ==> ok == P.PlainInreplace(old(journal.View()), path, before, after, firstOnly).Some?
    ensures ok ==> exists pieces | |pieces| > 1 && Cut(pieces, old(journal.View())[path].content, before, firstOnly) ::
              Placed(old(journal.View()), journal.View(), path, File(Glued(pieces, after), NEW_FILE_MODE))
    ensures journal.fs.reliable ==> (ok <==> path in old(journal.View()) && old(journal.View())[path].File? && Occurs(before, old(journal.View())[path].content))
  {
    hide Settled, Recoverable, Placed, Occurs, Cut, Glued;
    ViewWellFormed(journal.fs.tree, journal.ToLog(), journal.initial, journal.journalDir);
    O.InreplaceDone(journal.View(), path, before, after, firstOnly);
    SeenThrough(journal.fs.tree, journal.journalDir, path);
    var content := journal.fs.ReadFile(path);
    if content.None? || !P.Contains(content.value, before) {
      return false;
    }
    ok := PutFile(journal, index, path, P.Replaced(content.value, before, after, firstOnly));
  }

  method ExecuteLinkChildren(journal: StepJournal, index: nat, source: Path, target: Path, prefix: string, suffix: string)
    returns (ok: bool)
    requires journal.Valid() && Apart(source, journal.journalDir) && Apart(target, journal.journalDir)
    modifies journal`root, journal`nextBackup, journal`inverses, journal.fs`tree
    ensures journal.Valid()
    ensures ok ==> P.PlainLinkChildren(old(journal.View()), source, target, prefix, suffix) == Some(journal.View())
    ensures journal.fs.reliable ==> ok == P.PlainLinkChildren(old(journal.View()), source, target, prefix, suffix).Some?
    ensures ok ==>
      var u := DirsMade(old(journal.View()), target);
      LinksMade(u, journal.View(), source, target, prefix, suffix, O.NamesIn(u, source))
    ensures journal.fs.reliable ==> 
      var u := DirsMade(old(journal.View()), target);
      ok <==> DirsDownTo(old(journal.View()), target) && O.Openable(u, source) && NamesFree(u, target, prefix, suffix, O.NamesIn(u, source))
  {
    hide Settled, Recoverable, LinksMade, NamesFree, O.NamesIn, O.Openable, DirsDownTo, DirsMade;
    ViewWellFormed(journal.fs.tree, journal.ToLog(), journal.initial, journal.journalDir);
    O.ChildrenLinked(journal.View(), source, target, prefix, suffix);
    ok := CreateParents(journal, target);
    if !ok {
      return;
    }
    ListingOutside(journal.fs.tree, source, journal.journalDir);
    var names := journal.fs.ReadDir(source);
    if names.None? {
      return false;
    }
    ok := LinkEach(journal, index, source, target, prefix, suffix, names.value);
  }

  method LinkEach(journal: StepJournal, index: nat, source: Path, target: Path, prefix: string, suffix: string, names: seq<string>)
    returns (ok: bool)
    requires journal.Valid() && Apart(target, journal.journalDir)
    modifies journal`root, journal`nextBackup, journal`inverses, journal.fs`tree
    ensures journal.Valid()
    ensures ok ==> P.LinkEach(old(journal.View()), source, target, prefix, suffix, names) == Some(journal.View())
    ensures journal.fs.reliable ==> ok == P.LinkEach(old(journal.View()), source, target, prefix, suffix, names).Some?
  {
    hide Settled, Recoverable;
    ghost var view := journal.View();
    var i := 0;
    assert names[0..] == names;
    while i < |names|
      invariant 0 <= i <= |names|
      invariant journal.Valid()
      invariant P.LinkEach(view, source, target, prefix, suffix, names) ==
                P.LinkEach(journal.View(), source, target, prefix, suffix, names[i..])
    {
      assert names[i..][0] == names[i] && names[i..][1..] == names[i + 1..];
      var destination := target + [prefix + names[i] + suffix];
      ApartBelow(target, journal.journalDir, destination);
      ok := CreateLink(journal, index, P.PathText(source + [names[i]]), destination, false);
      if !ok {
        return;
      }
      i := i + 1;
    }
    return true;
  }

  method ExecuteSymlinkGlob(journal: StepJournal, index: nat, pattern: Path, target: Path, force: bool) returns (ok: bool)
    requires journal.Valid() && Avoids(pattern, journal.journalDir) && Apart(target, journal.journalDir)
    modifies journal`root, journal`nextBackup, journal`inverses, journal.fs`tree
    ensures journal.Valid()
    ensures ok ==> P.PlainSymlinkGlob(old(journal.View()), pattern, target, force) == Some(journal.View())
    ensures journal.fs.reliable ==> ok == P.PlainSymlinkGlob(old(journal.View()), pattern, target, force).Some?
    ensures ok ==> exists sources | O.Lists(old(journal.View()), pattern, sources) ::
              O.GlobLinked(old(journal.View()), journal.View(), sources, target, force)
    ensures journal.fs.reliable ==> (ok <==> exists sources | O.Lists(old(journal.View()), pattern, sources) ::
              O.CanGlobLink(old(journal.View()), sources, target, force))
  {
    hide Settled, Recoverable, O.Lists, O.GlobLinked, O.CanGlobLink, Placed, RoomAt;
    ViewWellFormed(journal.fs.tree, journal.ToLog(), journal.initial, journal.journalDir);
    O.GlobLinksMade(journal.View(), pattern, target, force);
    var sources := ExpandApart(journal, pattern);
    if sources.None? {
      return false;
    }
    if sources.value == [] {
      return true;
    }
    SeenThrough(journal.fs.tree, journal.journalDir, target);
    if |sources.value| > 1 || (target in journal.fs.tree && journal.fs.tree[target].Dir?) {
      ok := CreateParents(journal, target);
      if !ok {
        return;
      }
      ok := LinkInto(journal, index, sources.value, target, force);
    } else {
      ok := CreateLink(journal, index, P.PathText(sources.value[0]), target, force);
    }
  }

  method LinkInto(journal: StepJournal, index: nat, sources: seq<Path>, target: Path, force: bool) returns (ok: bool)
    requires journal.Valid() && Apart(target, journal.journalDir)
    modifies journal`root, journal`nextBackup, journal`inverses, journal.fs`tree
    ensures journal.Valid()
    ensures ok ==> P.LinkInto(old(journal.View()), sources, target, force) == Some(journal.View())
    ensures journal.fs.reliable ==> ok == P.LinkInto(old(journal.View()), sources, target, force).Some?
  {
    hide Settled, Recoverable;
    ghost var view := journal.View();
    var i := 0;
    assert sources[0..] == sources;
    while i < |sources|
      invariant 0 <= i <= |sources|
      invariant journal.Valid()
      invariant P.LinkInto(view, sources, target, force) == P.LinkInto(journal.View(), sources[i..], target, force)
    {
      assert sources[i..][0] == sources[i] && sources[i..][1..] == sources[i + 1..];
      if sources[i] == [] {
        return false;
      }
      ApartBelow(target, journal.journalDir, target + [Base(sources[i])]);
      ok := CreateLink(journal, index, P.PathText(sources[i]), target + [Base(sources[i])], force);
      if !ok {
        return;
      }
      i := i + 1;
    }
    return true;
  }

  method ExecuteWrite(journal: StepJournal, index: nat, path: Path, content: string, overwrite: bool) returns (ok: bool)
    requires journal.Valid() && Apart(path, journal.journalDir)
    modifies journal`root, journal`nextBackup, journal`inverses, journal.fs`tree
    ensures journal.Valid()
    ensures ok ==> P.Perform(old(journal.View()), P.Write(path, content, overwrite)) == Some(journal.View())
    ensures journal.fs.reliable ==> ok == P.Perform(old(journal.View()), P.Write(path, content, overwrite)).Some?
    ensures ok && path in old(journal.View()) && !overwrite ==> journal.View() == old(journal.View())
    ensures ok && (path !in old(journal.View()) || overwrite) ==> Placed(old(journal.View()), journal.View(), path, File(content, NEW_FILE_MODE))
    ensures journal.fs.reliable ==> (ok <==> (path in old(journal.View()) && !overwrite) || RoomAt(old(journal.View()), path))
  {
    hide Settled, Recoverable, Placed, RoomAt;
    ViewWellFormed(journal.fs.tree, journal.ToLog(), journal.initial, journal.journalDir);
    SeenThrough(journal.fs.tree, journal.journalDir, path);
    if path in journal.fs.tree && !overwrite {
      return true;
    }
    ok := PutFile(journal, index, path, content);
  }

  method ExecuteTouch(journal: StepJournal, path: Path) returns (ok: bool)
    requires journal.Valid() && Apart(path, journal.journalDir)
    modifies journal`inverses, journal.fs`tree
    ensures journal.Valid()
    ensures ok ==> P.PlainTouch(old(journal.View()), path) == Some(journal.View())
    ensures journal.fs.reliable ==> ok == P.PlainTouch(old(journal.View()), path).Some?
    ensures ok ==> if path in old(journal.View()) then journal.View() == old(journal.View()) else Placed(old(journal.View()), journal.View(), path, File("", NEW_FILE_MODE))
    ensures journal.fs.reliable ==> (ok <==> RoomAt(old(journal.View()), path))
  {
    hide Settled, Recoverable, Without, Placed, RoomAt;
    ViewWellFormed(journal.fs.tree, journal.ToLog(), journal.initial, journal.journalDir);
    O.Touched(journal.View(), path);
    ok := CreateParent(journal, path);
    if !ok {
      return;
    }
    SeenThrough(journal.fs.tree, journal.journalDir, path);
    if path !in journal.fs.tree {
      RecordRemove(journal.fs.tree, journal.ToLog(), journal.initial, journal.journalDir, path);
      journal.inverses := journal.inverses + [Remove(path)];
      ok := WriteBelow(journal, path, "");
    }
  }

  method SetModeOfMatching(journal: StepJournal, pattern: Path, mode: nat, nonRecursive: bool) returns (ok: bool)
    requires journal.Valid() && Avoids(pattern, journal.journalDir)
    modifies journal`inverses, journal.fs`tree
    ensures journal.Valid()
    ensures ok ==> P.ChmodMatching(old(journal.View()), pattern, mode, nonRecursive) == Some(journal.View())
    ensures journal.fs.reliable ==> ok == P.ChmodMatching(old(journal.View()), pattern, mode, nonRecursive).Some?
  {
    hide Settled, Recoverable;
    var paths := ExpandApart(journal, pattern);
    if paths.None? {
      return false;
    }
    ok := SetModeOfEach(journal, paths.value, mode, nonRecursive);
  }

  method ExecutePermissions(journal: StepJournal, patterns: seq<Path>, mode: nat, nonRecursive: bool) returns (ok: bool)
    requires journal.Valid() && forall p | p in patterns :: Avoids(p, journal.journalDir)
    modifies journal`inverses, journal.fs`tree
    ensures journal.Valid()
    ensures ok ==> P.ChmodPatterns(old(journal.View()), patterns, mode, nonRecursive) == Some(journal.View())
    ensures journal.fs.reliable ==> ok == P.ChmodPatterns(old(journal.View()), patterns, mode, nonRecursive).Some?
    ensures ok ==> MatchesRemoded(old(journal.View()), journal.View(), patterns, mode, nonRecursive)
    ensures journal.fs.reliable ==> (ok <==> forall p | p in patterns :: O.ModeCanBeSet(old(journal.View()), p, nonRecursive))
  {
    hide Settled, Recoverable, MatchesRemoded, O.ModeCanBeSet, P.ChmodMatching, Avoids;
    ViewWellFormed(journal.fs.tree, journal.ToLog(), journal.initial, journal.journalDir);
    PatternsModeSet(journal.View(), patterns, mode, nonRecursive);
    O.ModesCanBeSet(journal.View(), patterns, mode, nonRecursive);
    ghost var view := journal.View();
    var i := 0;
    assert patterns[0..] == patterns;
    while i < |patterns|
      invariant 0 <= i <= |patterns|
      invariant journal.Valid()
      invariant P.ChmodPatterns(view, patterns, mode, nonRecursive) ==
                P.ChmodPatterns(journal.View(), patterns[i..], mode, nonRecursive)
    {
      assert patterns[i..][0] == patterns[i] && patterns[i..][1..] == patterns[i + 1..];
      assert patterns[i] in patterns;
      ok := SetModeOfMatching(journal, patterns[i], mode, nonRecursive);
      if !ok {
        return;
      }
      i := i + 1;
    }
    return true;
  }

  method SetModeOfEach(journal: StepJournal, paths: seq<Path>, mode: nat, nonRecursive: bool) returns (ok: bool)
    requires journal.Valid() && forall p | p in paths :: Apart(p, journal.journalDir)
    modifies journal`inverses, journal.fs`tree
    ensures journal.Valid()
    ensures ok ==> P.ChmodEach(old(journal.View()), paths, mode, nonRecursive) == Some(journal.View())
    ensures journal.fs.reliable ==> ok == P.ChmodEach(old(journal.View()), paths, mode, nonRecursive).Some?
  {
    hide Settled, Recoverable;
    ghost var view := journal.View();
    var i := 0;
    assert paths[0..] == paths;
    while i < |paths|
      invariant 0 <= i <= |paths|
      invariant journal.Valid()
      invariant P.ChmodEach(view, paths, mode, nonRecursive) == P.ChmodEach(journal.View(), paths[i..], mode, nonRecursive)
    {
      assert paths[i] in paths && paths[i..][0] == paths[i] && paths[i..][1..] == paths[i + 1..];
      ok := SetModeRecursive(journal, paths[i], mode, nonRecursive);
      if !ok {
        return;
      }
      i := i + 1;
    }
    return true;
  }

  // ----- whole runs -----

  /** The step's paths cannot reach the journal directory. */
  ghost predicate KeepsClear(kind: P.StepKind, journalDir: Path) {
    match kind
    case Mkdir(path, _) => Apart(path, journalDir)
    case Touch(path) => Apart(path, journalDir)
    case Move(source, target, _, _, sourceGlob) =>
      Apart(target, journalDir) && if sourceGlob then Avoids(source, journalDir) else Apart(source, journalDir)
    case MoveChildren(source, target) => Apart(source, journalDir) && Apart(target, journalDir)
    case Copy(source, target, _, _, sourceGlob) =>
      Apart(target, journalDir) && if sourceGlob then Avoids(source, journalDir) else Apart(source, journalDir)
    case Remove(paths, _, _, _) => forall p | p in paths :: Avoids(p, journalDir)
    case Inreplace(path, _, _, _) => Apart(path, journalDir)
    case LinkDir(source, target) => Apart(source, journalDir) && Apart(target, journalDir)
    case LinkChildren(source, target, _, _) => Apart(source, journalDir) && Apart(target, journalDir)
    case Symlink(_, target, _) => Apart(target, journalDir)
    case SymlinkGlob(source, target, _) => Avoids(source, journalDir) && Apart(target, journalDir)
    case Write(path, _, _) => Apart(path, journalDir)
    case Warn(_) => true
    case SetPermissions(paths, _, _) => forall p | p in paths :: Avoids(p, journalDir)
    case Run(_) => true
    case Maintenance(_) => true
  }

  lemma KeptClear(kind: P.StepKind, journalDir: Path)
    requires KeepsClear(kind, journalDir)
    ensures kind.Remove? ==> [] !in kind.paths
  {}

  ghost predicate StepKeepsClear(step: P.Step, journalDir: Path) {
    KeepsClear(step.kind, journalDir) && forall g | g in step.guards :: !g.On? ==> !(journalDir <= g.path)
  }

  /** The single path a source stands for. */
  method ResolveSource(journal: StepJournal, source: Path, sourceGlob: bool) returns (path: Option<Path>)
    requires journal.Valid()
    requires if sourceGlob then Avoids(source, journal.journalDir) else Apart(source, journal.journalDir)
    ensures path.Some? ==> path == P.SourceOf(journal.View(), source, sourceGlob) && Apart(path.value, journal.journalDir)
    ensures journal.fs.reliable ==> path == P.SourceOf(journal.View(), source, sourceGlob)
  {
    hide Settled, Recoverable;
    if !sourceGlob {
      return Some(source);
    }
    var sources := ExpandApart(journal, source);
    if sources.None? || |sources.value| != 1 {
      return None;
    }
    return Some(sources.value[0]);
  }

  method ExecuteFilesystemStep(journal: StepJournal, index: nat, kind: P.StepKind) returns (ok: bool)
    requires journal.Valid() && KeepsClear(kind, journal.journalDir)
    modifies journal`root, journal`nextBackup, journal`inverses, journal.fs`tree
    ensures journal.Undoable() && (ok ==> journal.Valid())
    ensures ok ==> P.Perform(old(journal.View()), kind) == Some(journal.View())
    ensures journal.fs.reliable ==> ok == P.Perform(old(journal.View()), kind).Some?
    ensures ok ==> O.Outcome(kind, old(journal.View()), journal.View())
    ensures ok && O.Settles(kind, old(journal.View())) ==> O.Possible(kind, old(journal.View()))
    ensures journal.fs.reliable && O.Settles(kind, old(journal.View())) && O.Possible(kind, old(journal.View())) ==> ok
  {
    hide Settled, Recoverable, O.Outcome, O.Possible, O.Settles, O.ModeCanBeSet, O.Lists, O.GlobLinked, O.CanGlobLink, O.NamesIn;
    hide O.Openable, LinksMade, NamesFree, ShiftedAt, MayShift, DirsMade, DirsDownTo, WithDirs, Placed, RoomAt, LandsAt, Cut;
    hide Moved, CanMove, Copied, CanCopy, MatchesLost, MayRemoveMatches, MatchesRemoded, ReadableFrom, Occurs, Glued;
    ViewWellFormed(journal.fs.tree, journal.ToLog(), journal.initial, journal.journalDir);
    KeptClear(kind, journal.journalDir);
    O.PerformDone(kind, journal.View());
    match kind {
      case Mkdir(path, parents) =>
        if parents {
          ok := CreateParents(journal, path);
        } else {
          ok := MakeDir(journal, path);
        }
      case Touch(path) =>
        ok := ExecuteTouch(journal, path);
      case Move(source, target, force, overwrite, sourceGlob) =>
        var path := ResolveSource(journal, source, sourceGlob);
        if path.None? {
          return false;
        }
        ok := ExecuteMove(journal, index, path.value, target, overwrite || force);
      case MoveChildren(source, target) =>
        ok := ExecuteMoveChildren(journal, source, target);
      case Copy(source, target, recursive, overwrite, sourceGlob) =>
        var path := ResolveSource(journal, source, sourceGlob);
        if path.None? {
          return false;
        }
        ok := ExecuteCopy(journal, index, path.value, target, recursive, overwrite);
      case Remove(paths, recursive, link, content) =>
        ok := ExecuteRemove(journal, index, paths, recursive, link, content);
      case Inreplace(path, before, after, firstOnly) =>
        ok := ExecuteInreplace(journal, index, path, before, after, firstOnly);
      case LinkDir(source, target) =>
        ok := LinkTree(journal, index, source, target);
      case LinkChildren(source, target, prefix, suffix) =>
        ok := ExecuteLinkChildren(journal, index, source, target, prefix, suffix);
      case Symlink(text, target, force) =>
        ok := CreateLink(journal, index, text, target, force);
      case SymlinkGlob(source, target, force) =>
        ok := ExecuteSymlinkGlob(journal, index, source, target, force);
      case Write(path, content, overwrite) =>
        ok := ExecuteWrite(journal, index, path, content, overwrite);
      case SetPermissions(paths, mode, nonRecursive) =>
        ok := ExecutePermissions(journal, paths, mode, nonRecursive);
      case Warn(_) =>
        ok := true;
      case Run(_) =>
        ok := true;
      case Maintenance(_) =>
        ok := true;
    }
  }

  method GuardsMatch(journal: StepJournal, guards: seq<P.Guard>, known: map<P.Guard, bool>)
    returns (applies: bool, known': map<P.Guard, bool>)
    requires forall g | g in guards :: !g.On? ==> !(journal.journalDir <= g.path)
    ensures (applies, known') == P.CheckGuards(journal.View(), guards, known)
    ensures applies <==> R.Applies(journal.View(), guards, known)
    ensures R.Answered(journal.View(), guards, known, known')
  {
    hide R.Applies, R.Answered;
    R.GuardsAnswered(journal.View(), guards, known);
    known' := known;
    var i := 0;
    assert guards[0..] == guards;
    while i < |guards|
      invariant 0 <= i <= |guards|
      invariant P.CheckGuards(journal.View(), guards, known) == P.CheckGuards(journal.View(), guards[i..], known')
    {
      assert guards[i..][0] == guards[i] && guards[i..][1..] == guards[i + 1..];
      if !guards[i].On? {
        SeenThrough(journal.fs.tree, journal.journalDir, guards[i].path);
      }
      if guards[i] !in known' {
        known' := known'[guards[i] := P.GuardHolds(journal.fs.tree, guards[i])];
      }
      if !known'[guards[i]] {
        return false, known';
      }
      i := i + 1;
    }
    return true, known';
  }

  /** The outcome of the remaining steps, prefixed with the commands issued so far. */
  ghost function Resume(rest: Option<P.Outcome>, ran: seq<string>, deferred: seq<string>): Option<P.Outcome> {
    match rest
    case None => None
    case Some(o) => Some(o.(ran := ran + o.ran, deferred := deferred + o.deferred))
  }

  method ExecuteStep(journal: StepJournal, index: nat, step: P.Step, known: map<P.Guard, bool>)
    returns (progress: Option<P.Progress>)
    requires journal.Valid() && StepKeepsClear(step, journal.journalDir)
    modifies journal`root, journal`nextBackup, journal`inverses, journal.fs`tree, journal.fs`issued
    ensures journal.Undoable() && (progress.Some? ==> journal.Valid())
    ensures progress.Some? ==> progress == P.RunStep(old(journal.View()), step, known) && progress.value.tree == journal.View()
    ensures journal.fs.reliable ==> progress.Some? == P.RunStep(old(journal.View()), step, known).Some?
    ensures progress.Some? ==> R.StepTold(old(journal.View()), step, known, journal.View(), progress.value.known)
    ensures progress.Some? ==>
      var applies := R.Applies(old(journal.View()), step.guards, known);
      && progress.value.now == (if applies && step.kind.Run? then [step.kind.command] else [])
      && progress.value.later == if applies && step.kind.Maintenance? then [step.kind.command] else []
    ensures journal.fs.reliable && progress.None? ==> R.CannotBeDone(step, old(journal.View()), known)
    ensures progress.Some? ==>
              && journal.fs.issued == old(journal.fs.issued) + progress.value.now
              && (progress.value.now != [] ==> journal.fs.GoesThrough(|old(journal.fs.issued)|))
    ensures progress.None? ==>
              || journal.fs.issued == old(journal.fs.issued)
              || (step.kind.Run? && journal.fs.issued == old(journal.fs.issued) + [step.kind.command] &&
                  !journal.fs.GoesThrough(|old(journal.fs.issued)|))
  {
    hide Settled, Recoverable, P.Perform, P.CheckGuards, O.Outcome, O.Possible, O.Settles, R.Applies, R.Answered;
    var applies, known' := GuardsMatch(journal, step.guards, known);
    if !applies {
      return Some(P.Progress(journal.View(), known', [], []));
    }
    var ok := ExecuteFilesystemStep(journal, index, step.kind);
    if ok && step.kind.Run? {
      ok := journal.fs.Issue(step.kind.command);
    }
    if !ok {
      return None;
    }
    return Some(P.Progress(journal.View(), known', P.CommandNow(step.kind), P.CommandLater(step.kind)));
  }

  ghost predicate AllKeepClear(steps: seq<P.Step>, journalDir: Path) {
    forall i | 0 <= i < |steps| :: StepKeepsClear(steps[i], journalDir)
  }

  /** These commands have been run since, and all went through. */
  ghost predicate AllThrough(fs: FileSystem, before: seq<string>, commands: seq<string>)
    reads fs
  {
    fs.issued == before + commands && forall k: nat | |before| <= k < |fs.issued| :: fs.GoesThrough(k)
  }

  method ExecuteEach(journal: StepJournal, steps: seq<P.Step>) returns (ok: bool, commands: seq<string>, maintenance: seq<string>)
    requires journal.Valid() && AllKeepClear(steps, journal.journalDir)
    modifies journal`root, journal`nextBackup, journal`inverses, journal.fs`tree, journal.fs`issued
    ensures journal.Undoable() && (ok ==> journal.Valid())
    ensures ok ==> P.RunSteps(old(journal.View()), steps, map[]) == Some(P.Outcome(journal.View(), commands, maintenance))
    ensures journal.fs.reliable ==> ok == P.RunSteps(old(journal.View()), steps, map[]).Some?
    ensures ok ==> R.Ran(steps, old(journal.View()), journal.View(), commands, maintenance)
    ensures journal.fs.reliable && !ok ==> R.Stuck(steps, old(journal.View()))
    ensures ok ==> AllThrough(journal.fs, old(journal.fs.issued), commands)
    ensures old(journal.fs.issued) <= journal.fs.issued
  {
    hide Settled, Recoverable, P.RunStep, P.RunSteps, Resume, StepKeepsClear;
    hide R.StepTold, R.Reached, R.Ran, R.CannotBeDone, R.Applies;
    var known: map<P.Guard, bool> := map[];
    commands, maintenance := [], [];
    ghost var plain := P.RunSteps(journal.View(), steps, map[]);
    ResumeNothing(plain);
    R.NothingReached(journal.View());
    ghost var before := journal.View();
    var i := 0;
    assert steps[..0] == [];
    assert steps[0..] == steps;
    while i < |steps|
      invariant 0 <= i <= |steps|
      invariant journal.Valid()
      invariant plain == Resume(P.RunSteps(journal.View(), steps[i..], known), commands, maintenance)
      invariant AllThrough(journal.fs, old(journal.fs.issued), commands)
      invariant R.Reached(steps[..i], before, journal.View(), commands, maintenance, known)
    {
      ghost var view := journal.View();
      assert steps[i..][0] == steps[i] && steps[i..][1..] == steps[i + 1..];
      ResumeStep(journal.View(), steps[i..], known, commands, maintenance);
      var progress := ExecuteStep(journal, i, steps[i], known);
      if progress.None? {
        return false, commands, maintenance;
      }
      R.ReachedNext(steps, i, before, view, journal.View(), commands, maintenance, known, progress.value.known);
      known := progress.value.known;
      commands := commands + progress.value.now;
      maintenance := maintenance + progress.value.later;
      i := i + 1;
    }
    assert steps[i..] == [] && steps[..i] == steps;
    R.AllReached(steps, before, journal.View(), commands, maintenance, known);
    ResumeEnd(journal.View(), known, commands, maintenance);
    ok := true;
  }

  /** The run went through all of its steps and issued these commands, maintenance last. */
  ghost predicate RanAll(steps: seq<P.Step>, t: Tree, t': Tree, commands: seq<string>) {
    exists now, later :: R.Ran(steps, t, t', now, later) && commands == now + later
  }

  /** Runs the steps in order. Commands leave the tree alone and may fail, which fails the run. Maintenance commands
      wait for the end. */
  method Execute(journal: StepJournal, steps: seq<P.Step>) returns (ok: bool, commands: seq<string>)
    requires journal.Valid() && AllKeepClear(steps, journal.journalDir)
    modifies journal`root, journal`nextBackup, journal`inverses, journal.fs`tree, journal.fs`issued
    ensures journal.Undoable() && (ok ==> journal.Valid())
    ensures ok ==>
      var plain := P.RunSteps(old(journal.View()), steps, map[]);
      plain.Some? && plain.value.tree == journal.View() && commands == plain.value.ran + plain.value.deferred
    ensures journal.fs.reliable ==> ok == P.RunSteps(old(journal.View()), steps, map[]).Some?
    ensures ok ==> RanAll(steps, old(journal.View()), journal.View(), commands)
    ensures journal.fs.reliable && !ok ==> R.Stuck(steps, old(journal.View()))
    ensures ok ==> AllThrough(journal.fs, old(journal.fs.issued), commands)
    ensures old(journal.fs.issued) <= journal.fs.issued
  {
    hide Settled, Recoverable, P.RunSteps, R.Ran, R.Stuck;
    var maintenance;
    ok, commands, maintenance := ExecuteEach(journal, steps);
    if ok {
      assert RanAll(steps, old(journal.View()), journal.View(), commands + maintenance);
      ok := RunMaintenance(journal.fs, maintenance);
      commands := commands + maintenance;
    }
  }

  lemma ResumeNothing(rest: Option<P.Outcome>)
    ensures Resume(rest, [], []) == rest
  {
    if rest.Some? {
      assert [] + rest.value.ran == rest.value.ran && [] + rest.value.deferred == rest.value.deferred;
    }
  }

  /** The command at `k` was the last one run, and it failed. */
  ghost predicate StoppedAt(fs: FileSystem, before: seq<string>, commands: seq<string>, k: nat)
    requires k < |commands|
    reads fs
  {
    fs.issued == before + commands[..k + 1] && !fs.GoesThrough(|before| + k)
  }

  /** One after the other, until one fails. */
  method RunMaintenance(fs: FileSystem, maintenance: seq<string>) returns (ok: bool)
    modifies fs`issued
    ensures fs.reliable ==> ok
    ensures ok ==> AllThrough(fs, old(fs.issued), maintenance)
    ensures !ok ==> exists k | 0 <= k < |maintenance| :: StoppedAt(fs, old(fs.issued), maintenance, k)
  {
    var m := 0;
    while m < |maintenance|
      invariant 0 <= m <= |maintenance|
      invariant AllThrough(fs, old(fs.issued), maintenance[..m])
    {
      ok := fs.Issue(maintenance[m]);
      assert maintenance[..m + 1] == maintenance[..m] + [maintenance[m]];
      if !ok {
        assert StoppedAt(fs, old(fs.issued), maintenance, m);
        return;
      }
      m := m + 1;
    }
    assert maintenance[..|maintenance|] == maintenance;
    return true;
  }

  lemma ResumeEnd(t: Tree, known: map<P.Guard, bool>, ran: seq<string>, deferred: seq<string>)
    ensures Resume(P.RunSteps(t, [], known), ran, deferred) == Some(P.Outcome(t, ran, deferred))
  {
    assert ran + [] == ran && deferred + [] == deferred;
  }

  lemma ResumeStep(t: Tree, steps: seq<P.Step>, known: map<P.Guard, bool>, ran: seq<string>, deferred: seq<string>)
    requires steps != []
    ensures P.RunStep(t, steps[0], known).None? ==> Resume(P.RunSteps(t, steps, known), ran, deferred) == None
    ensures P.RunStep(t, steps[0], known).Some? ==> var p := P.RunStep(t, steps[0], known).value;
      Resume(P.RunSteps(t, steps, known), ran, deferred) ==
      Resume(P.RunSteps(p.tree, steps[1..], p.known), ran + p.now, deferred + p.later)
  {
    hide P.RunStep;
    if P.RunStep(t, steps[0], known).None? {
      return;
    }
    var p := P.RunStep(t, steps[0], known).value;
    var rest := P.RunSteps(p.tree, steps[1..], p.known);
    if rest.Some? {
      assert ran + (p.now + rest.value.ran) == (ran + p.now) + rest.value.ran;
      assert deferred + (p.later + rest.value.deferred) == (deferred + p.later) + rest.value.deferred;
    }
  }

  /** How a post-install run ends. */
  datatype Report =
    | Done(commands: seq<string>)
    | Failed
    | RollbackIncomplete(leftovers: set<Path>)
    | CleanupIncomplete(leftover: Path)

  /** A whole post-install run: all of the steps or none of them, or else a rollback in which calls failed:
      `reached` is the tree it started from, with the log of the steps up to there. */
  method Postinstall(fs: FileSystem, journalDir: Path, steps: seq<P.Step>)
    returns (report: Report, ghost reached: Tree, ghost log: Log, ghost run: seq<Replay>)
    requires WellFormed(fs.tree) && CanCreate(fs.tree, journalDir)
    requires AllKeepClear(steps, journalDir)
    modifies fs`tree, fs`issued
    ensures report.Done? ==>
      var plain := P.RunSteps(old(fs.tree), steps, map[]);
      plain.Some? && fs.tree == plain.value.tree && report.commands == plain.value.ran + plain.value.deferred
    ensures report.Failed? ==> fs.tree == old(fs.tree)
    ensures report.RollbackIncomplete? ==>
      && report.leftovers != {} && Recoverable(reached, log, old(fs.tree), journalDir)
      && RolledBack(reached, log, run, journalDir, report.leftovers, fs.tree)
    ensures report.CleanupIncomplete? ==>
      var plain := P.RunSteps(old(fs.tree), steps, map[]);
      && plain.Some? && Without(fs.tree, journalDir) == plain.value.tree
      && report.leftover == journalDir && journalDir in fs.tree
    ensures fs.reliable ==> if P.RunSteps(old(fs.tree), steps, map[]).Some? then report.Done? else report.Failed?
    ensures report.Done? ==> RanAll(steps, old(fs.tree), fs.tree, report.commands)
    ensures report.Done? ==> AllThrough(fs, old(fs.issued), report.commands)
    ensures report.CleanupIncomplete? ==>
      exists commands :: RanAll(steps, old(fs.tree), Without(fs.tree, journalDir), commands) &&
                         AllThrough(fs, old(fs.issued), commands)
    ensures old(fs.issued) <= fs.issued
    ensures fs.reliable && !report.Done? ==> report.Failed? && R.Stuck(steps, old(fs.tree))
  {
    hide Recoverable, Settled, RolledBack, WellFormed, P.RunSteps, AllKeepClear, RanAll, R.Stuck;
    var journal := new StepJournal(fs, journalDir);
    var ok, commands := Execute(journal, steps);
    reached, log, run := fs.tree, journal.ToLog(), [];
    if !ok {
      var leftovers;
      leftovers, run := journal.Rollback();
      report := if leftovers == {} then Failed else RollbackIncomplete(leftovers);
      return;
    }
    StillWellFormed(fs.tree, journal.ToLog(), journal.initial, journalDir);
    var root := journal.TakeCleanupRoot();
    if root.Some? {
      var removed := fs.RemoveTree(root.value);
      if !removed && root.value in fs.tree {
        AbsentOrSame(fs.tree, journalDir);
        report := CleanupIncomplete(root.value);
        return;
      }
    } else {
      AbsentWithout(fs.tree, journalDir);
    }
    report := Done(commands);
  }

  lemma StillWellFormed(t: Tree, log: Log, initial: Tree, journalDir: Path)
    requires Settled(t, log, initial, journalDir)
    ensures WellFormed(t) && journalDir != []
  {}

  lemma AbsentOrSame(t: Tree, p: Path)
    ensures Without(Without(t, p), p) == Without(t, p)
  {}
}
