/**
  What each post-install step comes to, told from the trees before and after it alone: what stands where, what
  is gone, which text is replaced, where links lead; and when a step can be done at all.
 */
module StepOutcomes {
  import opened Text
  import opened FileTree
  import opened Globs
  import opened Replacements
  import opened TreeOutcomes
  import opened CopyOutcomes
  import opened LinkOutcomes
  import opened LinkTreeOutcomes
  import P = PlainSteps

  // ----- sources -----

  /** `p` is the source, or with a glob the only entry that it matches. */
  ghost predicate IsSource(t: Tree, source: Path, sourceGlob: bool, p: Path) {
    if sourceGlob then ReadableFrom(t, source, 0) && p in t && PathMatches(source, p)
                       && forall q | q in t && PathMatches(source, q) :: q == p
    else p == source
  }

  /** The entries that match, in ascending order. */
  ghost predicate Lists(t: Tree, pattern: Path, paths: seq<Path>) {
    && ReadableFrom(t, pattern, 0)
    && Ascending(paths) && forall p :: p in paths <==> p in t && PathMatches(pattern, p)
  }

  lemma ExpandLists(t: Tree, pattern: Path)
    requires WellFormed(t)
    ensures Expand(t, pattern).Some? <==> ReadableFrom(t, pattern, 0)
    ensures Expand(t, pattern).Some? ==> Lists(t, pattern, Expand(t, pattern).value)
  {
    ExpandReadable(t, pattern);
    if Expand(t, pattern).Some? {
      Listed(t, pattern);
      ExpandAscends(t, pattern);
    }
  }

  lemma SourceIs(t: Tree, source: Path, sourceGlob: bool)
    requires WellFormed(t)
    ensures P.SourceOf(t, source, sourceGlob).Some? <==> exists p :: IsSource(t, source, sourceGlob, p)
    ensures forall p | IsSource(t, source, sourceGlob, p) :: P.SourceOf(t, source, sourceGlob) == Some(p)
  {
    if sourceGlob {
      ExpandLists(t, source);
      if Expand(t, source).Some? {
        var paths := Expand(t, source).value;
        if |paths| == 1 {
          assert paths[0] in paths;
          assert IsSource(t, source, true, paths[0]);
        }
        forall p | IsSource(t, source, true, p)
          ensures |paths| == 1 && paths[0] == p
        {
          assert p in paths;
          OnlyOne(paths, p);
        }
      }
    } else {
      assert IsSource(t, source, false, source);
    }
  }

  lemma OnlyOne(paths: seq<Path>, p: Path)
    requires Ascending(paths) && p in paths && forall q | q in paths :: q == p
    ensures |paths| == 1
  {
    assert forall i | 0 <= i < |paths| :: paths[i] in paths;
    assert |paths| > 1 ==> PathBefore(paths[0], paths[1]);
  }

  // ----- children -----

  function NamesIn(t: Tree, p: Path): seq<string> {
    Sorted(ChildNames(t, p))
  }

  /** The directory can be listed. */
  ghost predicate Openable(t: Tree, p: Path) {
    p in t && t[p].Dir? && |p| <= MAX_DEPTH
  }

  // ----- the steps -----

  /** What a step that was done has come to. */
  ghost predicate Outcome(kind: P.StepKind, t: Tree, t': Tree) {
    match kind
    case Mkdir(path, parents) =>
      if parents then WithDirs(t, t', path) else path !in t && t' == t[path := Dir(NEW_DIR_MODE)]
    case Touch(path) =>
      if path in t then t' == t else Placed(t, t', path, File("", NEW_FILE_MODE))
    case Move(source, target, force, overwrite, sourceGlob) =>
      exists p | IsSource(t, source, sourceGlob, p) :: Moved(t, t', p, LandsAt(t, p, target))
    case MoveChildren(source, target) =>
      var u := DirsMade(t, target);
      forall q :: ShiftedAt(u, t', source, target, NamesIn(u, source), q)
    case Copy(source, target, recursive, overwrite, sourceGlob) =>
      exists p | IsSource(t, source, sourceGlob, p) :: Copied(t, t', p, LandsAt(t, p, target))
    case Remove(paths, recursive, link, content) =>
      MatchesLost(t, t', paths, link, content) && MayRemoveMatches(t, paths, recursive, link, content)
    case Inreplace(path, before, after, firstOnly) =>
      && path in t && t[path].File?
      && exists pieces | |pieces| > 1 && Cut(pieces, t[path].content, before, firstOnly) ::
           Placed(t, t', path, File(Glued(pieces, after), NEW_FILE_MODE))
    case LinkDir(source, target) =>
      Apart(source, target) ==> LinkedTree(DirsMade(t, target), t', source, target)
    case LinkChildren(source, target, prefix, suffix) =>
      var u := DirsMade(t, target);
      LinksMade(u, t', source, target, prefix, suffix, NamesIn(u, source))
    case Symlink(text, target, force) =>
      Placed(t, t', target, Link(text))
    case SymlinkGlob(source, target, force) =>
      exists sources | Lists(t, source, sources) :: GlobLinked(t, t', sources, target, force)
    case Write(path, content, overwrite) =>
      if path in t && !overwrite then t' == t else Placed(t, t', path, File(content, NEW_FILE_MODE))
    case Warn(_) => t' == t
    case SetPermissions(paths, mode, nonRecursive) =>
      MatchesRemoded(t, t', paths, mode, nonRecursive)
    case Run(_) => t' == t
    case Maintenance(_) => t' == t
  }

  /** A link for each source: in the target if that is a directory or there are several, else the target itself. */
  ghost predicate GlobLinked(t: Tree, t': Tree, sources: seq<Path>, target: Path, force: bool) {
    if sources == [] then t' == t
    else if |sources| > 1 || (target in t && t[target].Dir?) then
      LinkedInto(DirsMade(t, target), t', sources, target)
    else Placed(t, t', target, Link(TextOf(sources[0])))
  }

  /** Whether a step can be done. */
  ghost predicate Possible(kind: P.StepKind, t: Tree) {
    match kind
    case Mkdir(path, parents) =>
      if parents then DirsDownTo(t, path) else path != [] && path !in t && Parent(path) in t && t[Parent(path)].Dir?
    case Touch(path) => RoomAt(t, path)
    case Move(source, target, force, overwrite, sourceGlob) =>
      exists p | IsSource(t, source, sourceGlob, p) :: CanMove(t, p, target, overwrite || force)
    case MoveChildren(source, target) =>
      var u := DirsMade(t, target);
      DirsDownTo(t, target) && Openable(u, source) && MayShift(u, source, target, NamesIn(u, source))
    case Copy(source, target, recursive, overwrite, sourceGlob) =>
      exists p | IsSource(t, source, sourceGlob, p) :: CanCopy(t, p, target, recursive, overwrite)
    case Remove(paths, recursive, link, content) => MayRemoveMatches(t, paths, recursive, link, content)
    case Inreplace(path, before, after, firstOnly) => path in t && t[path].File? && Occurs(before, t[path].content)
    case LinkDir(source, target) => DirsDownTo(t, target) && source in t && t[source].Dir? && ShallowBut(t, source)
    case LinkChildren(source, target, prefix, suffix) =>
      var u := DirsMade(t, target);
      DirsDownTo(t, target) && Openable(u, source) && NamesFree(u, target, prefix, suffix, NamesIn(u, source))
    case Symlink(text, target, force) => RoomAt(t, target) && (target in t ==> force)
    case SymlinkGlob(source, target, force) =>
      exists sources | Lists(t, source, sources) :: CanGlobLink(t, sources, target, force)
    case Write(path, content, overwrite) => (path in t && !overwrite) || RoomAt(t, path)
    case Warn(_) => true
    case SetPermissions(paths, mode, nonRecursive) =>
      forall pattern | pattern in paths :: ModeCanBeSet(t, pattern, nonRecursive)
    case Run(_) => true
    case Maintenance(_) => true
  }

  /** The pattern can be expanded, and unless only its matches get the mode, all below them can be listed. */
  ghost predicate ModeCanBeSet(t: Tree, pattern: Path, nonRecursive: bool) {
    ReadableFrom(t, pattern, 0) && (nonRecursive || forall p | p in t && PathMatches(pattern, p) :: Shallow(t, p))
  }

  ghost predicate CanGlobLink(t: Tree, sources: seq<Path>, target: Path, force: bool) {
    if sources == [] then true
    else if |sources| > 1 || (target in t && t[target].Dir?) then
      DirsDownTo(t, target) && MayLinkInto(DirsMade(t, target), sources, target, force)
    else RoomAt(t, target) && (target in t ==> force)
  }

  /** Whether `Possible` settles it: a tree of links is not to overlap what it links, and earlier patterns of a
      removal may take away what keeps a later one from being expanded. */
  ghost predicate Settles(kind: P.StepKind, t: Tree) {
    && (kind.LinkDir? ==> Apart(kind.source, kind.target))
    && (kind.Remove? ==> forall pattern | pattern in kind.paths :: ReadableFrom(t, pattern, 0))
  }

  // ----- each kind of step -----

  /** What is to be proved of each kind. */
  ghost predicate Done(kind: P.StepKind, t: Tree) {
    && (Settles(kind, t) ==> (P.Perform(t, kind).Some? <==> Possible(kind, t)))
    && (P.Perform(t, kind).Some? ==> Outcome(kind, t, P.Perform(t, kind).value))
  }

  lemma ParentsAre(t: Tree, p: Path)
    requires WellFormed(t)
    ensures P.MakeParents(t, p) == if DirsDownTo(t, p) then Some(DirsMade(t, p)) else None
    ensures DirsDownTo(t, p) ==> WellFormed(DirsMade(t, p)) && WithDirs(t, DirsMade(t, p), p)
  {
    ParentsMade(t, p);
    if DirsDownTo(t, p) {
      WithDirsIs(t, P.MakeParents(t, p).value, p);
    }
  }

  lemma MkdirDone(t: Tree, path: Path, parents: bool)
    requires WellFormed(t)
    ensures Done(P.Mkdir(path, parents), t)
  {
    ParentsAre(t, path);
  }

  lemma TouchDone(t: Tree, path: Path)
    requires WellFormed(t)
    ensures Done(P.Touch(path), t)
  {
    hide RoomAt, Placed, P.PlainTouch;
    Touched(t, path);
  }

  lemma Touched(t: Tree, path: Path)
    requires WellFormed(t)
    ensures P.PlainTouch(t, path).Some? <==> RoomAt(t, path)
    ensures P.PlainTouch(t, path).Some? && path in t ==> P.PlainTouch(t, path).value == t
    ensures P.PlainTouch(t, path).Some? && path !in t ==> Placed(t, P.PlainTouch(t, path).value, path, File("", NEW_FILE_MODE))
  {
    ParentMade(t, path);
    if RoomAt(t, path) {
      var u := P.MakeParent(t, path).value;
      if path in t {
        AncestorIn(t, path, Parent(path));
      } else {
        AbsentBelow(u, path);
      }
    }
  }

  lemma MoveKindDone(t: Tree, source: Path, target: Path, force: bool, overwrite: bool, sourceGlob: bool)
    requires WellFormed(t)
    ensures Done(P.Move(source, target, force, overwrite, sourceGlob), t)
  {
    hide IsSource, Moved, CanMove, LandsAt, P.SourceOf, P.PlainMove;
    SourceIs(t, source, sourceGlob);
    if p :| IsSource(t, source, sourceGlob, p) {
      MoveDone(t, p, target, overwrite || force);
    }
  }

  lemma CopyKindDone(t: Tree, source: Path, target: Path, recursive: bool, overwrite: bool, sourceGlob: bool)
    requires WellFormed(t)
    ensures Done(P.Copy(source, target, recursive, overwrite, sourceGlob), t)
  {
    hide IsSource, Copied, CanCopy, LandsAt, P.SourceOf, P.PlainCopy;
    SourceIs(t, source, sourceGlob);
    if p :| IsSource(t, source, sourceGlob, p) {
      CopyFinished(t, p, target, recursive, overwrite);
    }
  }

  lemma NamesAre(t: Tree, p: Path)
    ensures Listing(t, p) == if Openable(t, p) then Some(NamesIn(t, p)) else None
    ensures forall n :: n in NamesIn(t, p) <==> p + [n] in t
    ensures forall i, j | 0 <= i < j < |NamesIn(t, p)| :: NamesIn(t, p)[i] != NamesIn(t, p)[j]
  {}

  lemma MoveChildrenDone(t: Tree, source: Path, target: Path)
    requires WellFormed(t)
    ensures Done(P.MoveChildren(source, target), t)
  {
    hide ShiftedAt, MayShift, NamesIn, Openable, DirsDownTo, DirsMade, P.PlainMoveChildren;
    ChildrenMoved(t, source, target);
  }

  lemma ChildrenMoved(t: Tree, source: Path, target: Path)
    requires WellFormed(t)
    ensures var u := DirsMade(t, target);
            && (P.PlainMoveChildren(t, source, target).Some? <==>
                DirsDownTo(t, target) && Openable(u, source) && MayShift(u, source, target, NamesIn(u, source)))
            && (P.PlainMoveChildren(t, source, target).Some? ==>
                forall q :: ShiftedAt(u, P.PlainMoveChildren(t, source, target).value, source, target, NamesIn(u, source), q))
  {
    hide ShiftedAt, MayShift, DirsMade, P.MakeParents;
    ParentsAre(t, target);
    if DirsDownTo(t, target) {
      var u := DirsMade(t, target);
      NamesAre(u, source);
      ChildrenShifted(u, source, target, NamesIn(u, source));
    }
  }

  lemma LinkChildrenDone(t: Tree, source: Path, target: Path, prefix: string, suffix: string)
    requires WellFormed(t)
    ensures Done(P.LinkChildren(source, target, prefix, suffix), t)
  {
    hide LinksMade, NamesFree, NamesIn, Openable, DirsDownTo, DirsMade, P.PlainLinkChildren;
    ChildrenLinked(t, source, target, prefix, suffix);
  }

  lemma ChildrenLinked(t: Tree, source: Path, target: Path, prefix: string, suffix: string)
    requires WellFormed(t)
    ensures var u := DirsMade(t, target);
            && (P.PlainLinkChildren(t, source, target, prefix, suffix).Some? <==>
                DirsDownTo(t, target) && Openable(u, source) && NamesFree(u, target, prefix, suffix, NamesIn(u, source)))
            && (P.PlainLinkChildren(t, source, target, prefix, suffix).Some? ==>
                LinksMade(u, P.PlainLinkChildren(t, source, target, prefix, suffix).value, source, target, prefix, suffix,
                          NamesIn(u, source)))
  {
    hide LinksMade, NamesFree, DirsMade, P.MakeParents;
    ParentsAre(t, target);
    if DirsDownTo(t, target) {
      var u := DirsMade(t, target);
      NamesAre(u, source);
      EachLinked(u, source, target, prefix, suffix, NamesIn(u, source));
    }
  }

  lemma LinkDirDone(t: Tree, source: Path, target: Path)
    requires WellFormed(t)
    ensures Done(P.LinkDir(source, target), t)
  {
    hide LinkedTree, ShallowBut, DirsDownTo, DirsMade, P.LinkTree;
    if Apart(source, target) {
      TreeLinksMade(t, source, target);
    }
  }

  lemma TreeLinksMade(t: Tree, source: Path, target: Path)
    requires WellFormed(t) && Apart(source, target)
    ensures P.LinkTree(t, source, target).Some? <==>
            DirsDownTo(t, target) && source in t && t[source].Dir? && ShallowBut(t, source)
    ensures P.LinkTree(t, source, target).Some? ==>
            LinkedTree(DirsMade(t, target), P.LinkTree(t, source, target).value, source, target)
  {
    hide LinkedTree, P.LinkAll;
    ParentsAre(t, target);
    if DirsDownTo(t, target) {
      var u := DirsMade(t, target);
      assert P.MakeParents(u, target) == Some(u);
      assert P.LinkTree(t, source, target) == P.LinkTree(u, source, target);
      TreeLinked(u, source, target);
      DirsMadeElsewhere(t, source, target);
    }
  }

  lemma DirsMadeElsewhere(t: Tree, source: Path, target: Path)
    requires Apart(source, target)
    ensures SameBelow(t, DirsMade(t, target), source)
    ensures source in DirsMade(t, target) <==> source in t
    ensures source in t ==> DirsMade(t, target)[source] == t[source]
    ensures ShallowBut(DirsMade(t, target), source) <==> ShallowBut(t, source)
  {
    forall k | 0 <= k <= |target|
      ensures !(source <= target[..k])
    {}
    ShallowButAlike(t, DirsMade(t, target), source);
  }

  lemma InreplaceDone(t: Tree, path: Path, before: string, after: string, firstOnly: bool)
    requires WellFormed(t)
    ensures Done(P.Inreplace(path, before, after, firstOnly), t)
  {
    if path in t && t[path].File? {
      var text := t[path].content;
      OccursAt(before, text);
      FilePut(t, path, P.Replaced(text, before, after, firstOnly));
      assert RoomAt(t, path) by {
        forall q | q in t && q < path
          ensures t[q].Dir?
        {
          AncestorIn(t, path, q);
        }
      }
      if Occurs(before, text) {
        var pieces := ReplacedIs(text, before, after, firstOnly);
      }
    }
  }

  lemma GlobDone(t: Tree, source: Path, target: Path, force: bool)
    requires WellFormed(t)
    ensures Done(P.SymlinkGlob(source, target, force), t)
  {
    hide Lists, GlobLinked, CanGlobLink, P.PlainSymlinkGlob;
    GlobLinksMade(t, source, target, force);
  }

  lemma GlobLinksMade(t: Tree, source: Path, target: Path, force: bool)
    requires WellFormed(t)
    ensures P.PlainSymlinkGlob(t, source, target, force).Some? <==>
            exists sources | Lists(t, source, sources) :: CanGlobLink(t, sources, target, force)
    ensures P.PlainSymlinkGlob(t, source, target, force).Some? ==>
            exists sources | Lists(t, source, sources) ::
              GlobLinked(t, P.PlainSymlinkGlob(t, source, target, force).value, sources, target, force)
  {
    hide Lists, GlobLinked, CanGlobLink, P.PlainSymlinkGlob, ReadableFrom;
    ExpandLists(t, source);
    if Expand(t, source).Some? {
      var sources := Expand(t, source).value;
      GlobLinks(t, source, sources, target, force);
      forall other | Lists(t, source, other)
        ensures other == sources
      {
        ListsAreOne(t, source, other, sources);
      }
    } else {
      NoGlobLinks(t, source, target, force);
    }
  }

  lemma NoGlobLinks(t: Tree, source: Path, target: Path, force: bool)
    requires Expand(t, source).None? && !ReadableFrom(t, source, 0)
    ensures P.PlainSymlinkGlob(t, source, target, force).None? && forall sources :: !Lists(t, source, sources)
  {}

  lemma GlobLinks(t: Tree, source: Path, sources: seq<Path>, target: Path, force: bool)
    requires WellFormed(t) && Expand(t, source) == Some(sources)
    ensures P.PlainSymlinkGlob(t, source, target, force).Some? <==> CanGlobLink(t, sources, target, force)
    ensures P.PlainSymlinkGlob(t, source, target, force).Some? ==>
              GlobLinked(t, P.PlainSymlinkGlob(t, source, target, force).value, sources, target, force)
  {
    hide LinkedInto, MayLinkInto, TextOf, Placed, P.PathText;
    if sources != [] {
      if |sources| > 1 || (target in t && t[target].Dir?) {
        ParentsAre(t, target);
        if DirsDownTo(t, target) {
          IntoLinked(DirsMade(t, target), sources, target, force);
        }
      } else {
        PathTextIs(sources[0]);
        LinkPut(t, TextOf(sources[0]), target, force);
      }
    }
  }

  lemma NothingListed(paths: seq<Path>)
    ensures paths == [] <==> forall p :: p !in paths
  {
    if paths != [] {
      assert paths[0] in paths;
    }
  }

  lemma {:induction false} AscendingUnique(one: seq<Path>, other: seq<Path>)
    requires Ascending(one) && Ascending(other) && forall p :: p in one <==> p in other
    ensures one == other
    decreases |one|
  {
    if one == [] {
      NothingListed(other);
    } else {
      assert one[0] in one && one[0] in other;
      assert other[0] in other && other[0] in one;
      FirstIsSame(one, other);
      forall p
        ensures p in one[1..] <==> p in other[1..]
      {
        RestWithoutFirst(one, p);
        RestWithoutFirst(other, p);
      }
      AscendingUnique(one[1..], other[1..]);
      assert one == [one[0]] + one[1..] && other == [other[0]] + other[1..];
    }
  }

  lemma FirstIsSame(one: seq<Path>, other: seq<Path>)
    requires Ascending(one) && Ascending(other) && one != [] && other != [] && one[0] in other && other[0] in one
    ensures one[0] == other[0]
  {
    var i :| 0 <= i < |other| && other[i] == one[0];
    var j :| 0 <= j < |one| && one[j] == other[0];
    if i > 0 && j > 0 {
      assert PathBefore(other[0], other[i]) && PathBefore(one[0], one[j]);
      BeforeOneWay(one[0], other[0]);
    }
  }

  lemma BeforeOneWay(p: Path, q: Path)
    ensures !(PathBefore(p, q) && PathBefore(q, p))
  {
    if PathBefore(p, q) && PathBefore(q, p) {
      var k :| 0 <= k < |p| && p[..k] == q[..k] && p[k] != q[k] && LexLe(p[k], q[k]);
      var m :| 0 <= m < |q| && q[..m] == p[..m] && q[m] != p[m] && LexLe(q[m], p[m]);
      SameUpTo(p, q, k, m);
      SameUpTo(p, q, m, k);
      LexAntisymmetric(p[k], q[k]);
    }
  }

  lemma SameUpTo(p: Path, q: Path, k: nat, m: nat)
    requires m <= |p| && m <= |q| && p[..m] == q[..m]
    ensures k < m ==> p[k] == q[k]
  {
    if k < m {
      assert p[..m][k] == q[..m][k];
    }
  }

  lemma RestWithoutFirst(paths: seq<Path>, p: Path)
    requires Ascending(paths) && paths != []
    ensures p in paths[1..] <==> p in paths && p != paths[0]
  {
    if p in paths[1..] {
      var i :| 0 <= i < |paths[1..]| && paths[1..][i] == p;
      assert PathBefore(paths[0], paths[i + 1]);
    }
  }

  lemma ListsAreOne(t: Tree, pattern: Path, one: seq<Path>, other: seq<Path>)
    requires Lists(t, pattern, one) && Lists(t, pattern, other)
    ensures one == other
  {
    AscendingUnique(one, other);
  }

  lemma SymlinkDone(t: Tree, text: string, target: Path, force: bool)
    requires WellFormed(t)
    ensures Done(P.Symlink(text, target, force), t)
  {
    hide RoomAt, Placed, P.PutLink;
    LinkPut(t, text, target, force);
  }

  lemma WriteDone(t: Tree, path: Path, content: string, overwrite: bool)
    requires WellFormed(t)
    ensures Done(P.Write(path, content, overwrite), t)
  {
    hide RoomAt, Placed, P.PutFile;
    FilePut(t, path, content);
  }

  lemma PermissionsDone(t: Tree, paths: seq<Path>, mode: nat, nonRecursive: bool)
    requires WellFormed(t)
    ensures Done(P.SetPermissions(paths, mode, nonRecursive), t)
  {
    hide MatchesRemoded, P.ChmodPatterns, ModeCanBeSet;
    PatternsModeSet(t, paths, mode, nonRecursive);
    ModesCanBeSet(t, paths, mode, nonRecursive);
  }

  lemma RemoveDone(t: Tree, paths: seq<Path>, recursive: bool, link: Option<string>, content: Option<string>)
    requires WellFormed(t) && [] !in paths
    ensures Done(P.Remove(paths, recursive, link, content), t)
  {
    hide MatchesLost, P.RemoveAll, ReadableFrom, MayRemoveMatches;
    PatternsRemoved(t, paths, recursive, link, content);
    CanBeRemoved(t, paths, recursive, link, content);
  }

  lemma ReadableAlike(t: Tree, u: Tree, pattern: Path)
    requires u.Keys == t.Keys && forall q | q in t :: u[q].Dir? <==> t[q].Dir?
    ensures ReadableFrom(u, pattern, 0) <==> ReadableFrom(t, pattern, 0)
  {}

  /** Without entries a pattern stays as readable as it was. */
  lemma ReadableLess(t: Tree, u: Tree, pattern: Path)
    requires forall q | q in u :: q in t && u[q] == t[q]
    ensures ReadableFrom(t, pattern, 0) ==> ReadableFrom(u, pattern, 0)
  {}

  lemma {:induction false} ModesCanBeSet(t: Tree, patterns: seq<Path>, mode: nat, nonRecursive: bool)
    requires WellFormed(t)
    ensures P.ChmodPatterns(t, patterns, mode, nonRecursive).Some? <==>
            forall pattern | pattern in patterns :: ModeCanBeSet(t, pattern, nonRecursive)
    decreases |patterns|
  {
    hide ModeCanBeSet;
    if patterns != [] {
      var first, rest := patterns[0], patterns[1..];
      assert forall pattern | pattern in patterns :: pattern == first || pattern in rest;
      FirstModeCanBeSet(t, first, mode, nonRecursive);
      if P.ChmodMatching(t, first, mode, nonRecursive).Some? {
        var u := P.ChmodMatching(t, first, mode, nonRecursive).value;
        ModesCanBeSet(u, rest, mode, nonRecursive);
        forall pattern
          ensures ModeCanBeSet(u, pattern, nonRecursive) <==> ModeCanBeSet(t, pattern, nonRecursive)
        {
          ModeCanStillBeSet(t, first, mode, nonRecursive, pattern);
        }
      }
    }
  }

  lemma FirstModeCanBeSet(t: Tree, pattern: Path, mode: nat, nonRecursive: bool)
    requires WellFormed(t)
    ensures P.ChmodMatching(t, pattern, mode, nonRecursive).Some? <==> ModeCanBeSet(t, pattern, nonRecursive)
    ensures P.ChmodMatching(t, pattern, mode, nonRecursive).Some? ==> WellFormed(P.ChmodMatching(t, pattern, mode, nonRecursive).value)
  {
    hide ReadableFrom, Shallow, PathMatches;
    ExpandReadable(t, pattern);
    if Expand(t, pattern).Some? {
      var paths := Expand(t, pattern).value;
      Listed(t, pattern);
      EachModeSet(t, paths, mode, nonRecursive);
      if P.ChmodEach(t, paths, mode, nonRecursive).Some? {
        RemodedWellFormed(t, P.ChmodEach(t, paths, mode, nonRecursive).value, mode, q => CoveredBy(paths, nonRecursive, q));
      }
    }
  }

  lemma ModeCanStillBeSet(t: Tree, first: Path, mode: nat, nonRecursive: bool, pattern: Path)
    requires WellFormed(t) && P.ChmodMatching(t, first, mode, nonRecursive).Some?
    ensures var u := P.ChmodMatching(t, first, mode, nonRecursive).value;
            ModeCanBeSet(u, pattern, nonRecursive) <==> ModeCanBeSet(t, pattern, nonRecursive)
  {
    hide ReadableFrom, Shallow, PathMatches;
    var paths := Expand(t, first).value;
    Listed(t, first);
    EachModeSet(t, paths, mode, nonRecursive);
    var u := P.ChmodEach(t, paths, mode, nonRecursive).value;
    RemodedWellFormed(t, u, mode, q => CoveredBy(paths, nonRecursive, q));
    ReadableAlike(t, u, pattern);
  }

  lemma {:induction false} CanBeRemoved(t: Tree, patterns: seq<Path>, recursive: bool, link: Option<string>, content: Option<string>)
    requires WellFormed(t) && [] !in patterns
    ensures (forall pattern | pattern in patterns :: ReadableFrom(t, pattern, 0)) &&
            MayRemoveMatches(t, patterns, recursive, link, content) ==>
            P.RemoveAll(t, patterns, recursive, link, content).Some?
    decreases |patterns|
  {
    if patterns != [] && (forall pattern | pattern in patterns :: ReadableFrom(t, pattern, 0)) &&
       MayRemoveMatches(t, patterns, recursive, link, content)
    {
      hide ReadableFrom, Chosen, PathMatches, P.RemoveEach, Lost, Expand, WellFormed;
      var first, rest := patterns[0], patterns[1..];
      assert first in patterns && forall pattern | pattern in rest :: pattern in patterns;
      ExpandReadable(t, first);
      var paths := Expand(t, first).value;
      Listed(t, first);
      EachRemoved(t, paths, recursive, link, content);
      var u := P.RemoveEach(t, paths, recursive, link, content).value;
      LostKeeps(t, u, q => UnderChosen(t, paths, link, content, q));
      forall pattern | pattern in rest
        ensures ReadableFrom(u, pattern, 0)
      {
        ReadableLess(t, u, pattern);
      }
      CanBeRemoved(u, rest, recursive, link, content);
    }
  }

  lemma LostKeeps(t: Tree, u: Tree, gone: Path -> bool)
    requires Lost(t, u, gone)
    ensures forall q | q in u :: q in t && u[q] == t[q]
  {}

  lemma NothingDone(kind: P.StepKind, t: Tree)
    requires kind.Warn? || kind.Run? || kind.Maintenance?
    ensures Done(kind, t)
  {}

  /** Every step that is done comes to its outcome, and a step is done whenever it can be. */
  lemma PerformDone(kind: P.StepKind, t: Tree)
    requires WellFormed(t) && (kind.Remove? ==> [] !in kind.paths)
    ensures Done(kind, t)
  {
    hide Done, WellFormed;
    match kind
    case Mkdir(path, parents) => MkdirDone(t, path, parents);
    case Touch(path) => TouchDone(t, path);
    case Move(source, target, force, overwrite, sourceGlob) => MoveKindDone(t, source, target, force, overwrite, sourceGlob);
    case MoveChildren(source, target) => MoveChildrenDone(t, source, target);
    case Copy(source, target, recursive, overwrite, sourceGlob) =>
      CopyKindDone(t, source, target, recursive, overwrite, sourceGlob);
    case Remove(paths, recursive, link, content) => RemoveDone(t, paths, recursive, link, content);
    case Inreplace(path, before, after, firstOnly) => InreplaceDone(t, path, before, after, firstOnly);
    case LinkDir(source, target) => LinkDirDone(t, source, target);
    case LinkChildren(source, target, prefix, suffix) => LinkChildrenDone(t, source, target, prefix, suffix);
    case Symlink(text, target, force) => SymlinkDone(t, text, target, force);
    case SymlinkGlob(source, target, force) => GlobDone(t, source, target, force);
    case Write(path, content, overwrite) => WriteDone(t, path, content, overwrite);
    case Warn(_) => NothingDone(kind, t);
    case SetPermissions(paths, mode, nonRecursive) => PermissionsDone(t, paths, mode, nonRecursive);
    case Run(_) => NothingDone(kind, t);
    case Maintenance(_) => NothingDone(kind, t);
  }
}
