/**
  What creating, moving, removing and changing modes come to, told from the trees before and after alone, and
  when they cannot be done.
 */
module TreeOutcomes {
  import opened Text
  import opened FileTree
  import opened Globs
  import opened Replacements
  import P = PlainSteps

  // ----- what stands where -----

  /** Whatever lies at or above `p` is a directory. */
  ghost predicate DirsDownTo(t: Tree, p: Path) {
    forall q | q in t && q <= p :: t[q].Dir?
  }

  /** There can be an entry at `p`: whatever lies above it is a directory. */
  ghost predicate RoomAt(t: Tree, p: Path) {
    p != [] && forall q | q in t && q < p :: t[q].Dir?
  }

  /** The directory at `p` is there, and nothing has changed but that it and those above it may be new. */
  ghost predicate WithDirs(t: Tree, t': Tree, p: Path) {
    && p in t' && t'[p].Dir?
    && (forall q | q in t :: q in t' && t'[q] == t[q])
    && (forall q | q in t' && q !in t :: q <= p && t'[q] == Dir(NEW_DIR_MODE))
  }

  /** The tree with the directory at `p` and those above it. */
  function DirsMade(t: Tree, p: Path): Tree {
    map q | q in t.Keys + (set k | 0 <= k <= |p| :: p[..k]) :: if q in t then t[q] else Dir(NEW_DIR_MODE)
  }

  lemma WithDirsIs(t: Tree, u: Tree, p: Path)
    requires WellFormed(u) && WithDirs(t, u, p)
    ensures u == DirsMade(t, p)
  {
    forall q
      ensures q in u <==> q in DirsMade(t, p)
    {
      if q in u && q !in t {
        assert q == p[..|q|];
      }
      if k :| 0 <= k <= |p| && q == p[..k] {
        AncestorIn(u, p, q);
      }
    }
  }

  /** Outside the subtree at `d` nothing has changed but that directories above it may be new. */
  ghost predicate SameElsewhere(t: Tree, t': Tree, d: Path) {
    && (forall q | q in t && !(d <= q) :: q in t' && t'[q] == t[q])
    && (forall q | q in t' && !(d <= q) && q !in t :: q < d && t'[q] == Dir(NEW_DIR_MODE))
  }

  /** `n` stands at `d`, with nothing below it, and all else is as it was. */
  ghost predicate Placed(t: Tree, t': Tree, d: Path, n: Node) {
    && d in t' && t'[d] == n && (forall q | q in t' :: !(d < q))
    && SameElsewhere(t, t', d)
  }

  lemma AboveParent(t: Tree, p: Path)
    requires p != []
    ensures forall q | q in t :: (q < p <==> q <= Parent(p)) && (q <= p ==> q == p || q < p)
  {
    forall q | q in t
      ensures (q < p <==> q <= Parent(p)) && (q <= p ==> q == p || q < p)
    {
      if q <= p && |q| == |p| {
        assert q == p[..|p|] == p;
      }
      if q <= Parent(p) {
        assert |q| <= |Parent(p)| && q == p[..|q|];
      }
    }
  }

  lemma {:induction false} ParentsMade(t: Tree, p: Path)
    requires WellFormed(t)
    ensures P.MakeParents(t, p).Some? <==> DirsDownTo(t, p)
    ensures P.MakeParents(t, p).Some? ==>
              WellFormed(P.MakeParents(t, p).value) && WithDirs(t, P.MakeParents(t, p).value, p)
    decreases |p|
  {
    if p in t {
      forall q | q in t && q <= p && t[p].Dir?
        ensures t[q].Dir?
      {
        AncestorIn(t, p, q);
      }
    } else if p != [] {
      ParentsMade(t, Parent(p));
      AboveParent(t, p);
      assert DirsDownTo(t, p) <==> DirsDownTo(t, Parent(p)) by {
        assert forall q | q in t && q <= p :: q < p;
      }
      if P.MakeParents(t, Parent(p)).Some? {
        var u := P.MakeParents(t, Parent(p)).value;
        assert p !in u;
        CreateWellFormed(u, p, Dir(NEW_DIR_MODE));
      }
    }
  }

  lemma ParentMade(t: Tree, p: Path)
    requires WellFormed(t)
    ensures P.MakeParent(t, p).Some? <==> RoomAt(t, p)
    ensures P.MakeParent(t, p).Some? ==>
              && WellFormed(P.MakeParent(t, p).value) && WithDirs(t, P.MakeParent(t, p).value, Parent(p))
              && (p in t <==> p in P.MakeParent(t, p).value)
  {
    if p != [] {
      ParentsMade(t, Parent(p));
      AboveParent(t, p);
    }
  }

  lemma FilePut(t: Tree, p: Path, content: string)
    requires WellFormed(t)
    ensures P.PutFile(t, p, content).Some? <==> RoomAt(t, p)
    ensures P.PutFile(t, p, content).Some? ==>
              Placed(t, P.PutFile(t, p, content).value, p, File(content, NEW_FILE_MODE))
  {
    if p != [] {
      var u := Without(t, p);
      WithoutWellFormed(t, p);
      ParentMade(u, p);
      forall q | q in t && q < p
        ensures q in u && u[q] == t[q]
      {
        assert !(p <= q);
      }
    }
  }

  lemma LinkPut(t: Tree, text: string, p: Path, force: bool)
    requires WellFormed(t)
    ensures P.PutLink(t, text, p, force).Some? <==> RoomAt(t, p) && (p in t ==> force)
    ensures P.PutLink(t, text, p, force).Some? ==>
              WellFormed(P.PutLink(t, text, p, force).value) && Placed(t, P.PutLink(t, text, p, force).value, p, Link(text))
  {
    ParentMade(t, p);
    if RoomAt(t, p) {
      var u := P.MakeParent(t, p).value;
      WithoutWellFormed(u, p);
      assert Parent(p) in Without(u, p);
      if p in t ==> force {
        CreateWellFormed(Without(u, p), p, Link(text));
      }
    }
  }

  // ----- moves -----

  /** An existing directory as target means "into it". */
  ghost function LandsAt(t: Tree, p: Path, target: Path): Path {
    if target in t && t[target].Dir? && p != [] then target + [p[|p| - 1]] else target
  }

  /** The subtree at `p` is now the one at `d`, where nothing else stands, and all else is as it was. */
  ghost predicate Moved(t: Tree, t': Tree, p: Path, d: Path) {
    && Apart(p, d) && p in t
    && (forall q | q in t && p <= q :: d + q[|p|..] in t' && t'[d + q[|p|..]] == t[q])
    && (forall q | q in t' && d <= q :: p + q[|d|..] in t)
    && (forall q | q in t' :: !(p <= q))
    && (forall q | q in t && !(p <= q) && !(d <= q) :: q in t' && t'[q] == t[q])
    && (forall q | q in t' && !(d <= q) && q !in t :: q < d && t'[q] == Dir(NEW_DIR_MODE))
  }

  ghost predicate CanMove(t: Tree, p: Path, target: Path, replace: bool) {
    && RoomAt(t, target) && p in t && Apart(p, LandsAt(t, p, target))
    && (LandsAt(t, p, target) in t ==> replace)
  }

  lemma MoveDone(t: Tree, p: Path, target: Path, replace: bool)
    requires WellFormed(t)
    ensures P.PlainMove(t, p, target, replace).Some? <==> CanMove(t, p, target, replace)
    ensures P.PlainMove(t, p, target, replace).Some? ==>
              Moved(t, P.PlainMove(t, p, target, replace).value, p, LandsAt(t, p, target))
  {
    hide Moved, Apart, WellFormed, P.Rename, P.MakeParent;
    ParentMade(t, target);
    if RoomAt(t, target) {
      var u := P.MakeParent(t, target).value;
      var d := LandsAt(t, p, target);
      MoveLands(t, u, p, target);
      RenamedThere(u, p, d);
      if P.Rename(Without(u, d), p, d).Some? && p in t {
        MovedAfterDirs(t, u, P.Rename(Without(u, d), p, d).value, p, d, Parent(target));
      }
    }
  }

  lemma MoveLands(t: Tree, u: Tree, p: Path, target: Path)
    requires WellFormed(t) && RoomAt(t, target) && WithDirs(t, u, Parent(target)) && (target in t <==> target in u)
    ensures var d := LandsAt(t, p, target);
            && P.DestinationFor(u, p, target) == d && (d in t <==> d in u)
            && d != [] && Parent(d) in u && u[Parent(d)].Dir? && Parent(target) < d
            && (p in u && Apart(p, d) ==> p in t)
  {
    var d := LandsAt(t, p, target);
    assert p in u && p !in t ==> p < d;
  }

  lemma MovedAfterDirs(t: Tree, u: Tree, v: Tree, p: Path, d: Path, dir: Path)
    requires WithDirs(t, u, dir) && dir < d && Moved(u, v, p, d) && p in t
    ensures Moved(t, v, p, d)
  {
    forall q | q in u && q !in t
      ensures !(p <= q)
    {
      assert p <= q ==> p <= d;
    }
  }

  lemma RenamedThere(u: Tree, p: Path, d: Path)
    requires WellFormed(u) && d != [] && Parent(d) in u && u[Parent(d)].Dir?
    ensures P.Rename(Without(u, d), p, d).Some? <==> p in u && Apart(p, d)
    ensures P.Rename(Without(u, d), p, d).Some? ==> Moved(u, P.Rename(Without(u, d), p, d).value, p, d)
  {
    var w := Without(u, d);
    assert Parent(d) in w && d !in w;
    if p in u && Apart(p, d) {
      assert p != [];
      var v := Renamed(w, p, d);
      forall q | q in u && p <= q
        ensures d + q[|p|..] in v && v[d + q[|p|..]] == u[q]
      {
        assert !(d <= q);
        assert p + (d + q[|p|..])[|d|..] == q;
      }
      forall q | q in v
        ensures !(p <= q)
      {}
    }
  }

  // ----- modes -----

  /** No directory at or below `p` lies too deep to be opened. */
  ghost predicate Shallow(t: Tree, p: Path) {
    forall q | q in t && p <= q && t[q].Dir? :: |q| <= MAX_DEPTH
  }

  ghost predicate Covers(p: Path, nonRecursive: bool, q: Path) {
    p == q || (!nonRecursive && p <= q)
  }

  /** The entry with another mode; a link has none. */
  ghost function WithMode(n: Node, mode: nat): Node {
    match n
    case File(content, _) => File(content, mode)
    case Dir(_) => Dir(mode)
    case Link(_) => n
  }

  /** What `hit` selects has the mode, and all else is as it was. */
  ghost predicate Remoded(t: Tree, t': Tree, mode: nat, hit: Path -> bool) {
    && t'.Keys == t.Keys
    && forall q | q in t :: t'[q] == if hit(q) then WithMode(t[q], mode) else t[q]
  }

  lemma RemodedWellFormed(t: Tree, t': Tree, mode: nat, hit: Path -> bool)
    requires WellFormed(t) && Remoded(t, t', mode, hit)
    ensures WellFormed(t')
    ensures forall p :: Shallow(t', p) <==> Shallow(t, p)
    ensures forall p :: p in t' && t'[p].Dir? <==> p in t && t[p].Dir?
    ensures t'.Keys == t.Keys && forall p | p in t :: t'[p].Link? <==> t[p].Link?
    ensures forall p :: ChildNames(t', p) == ChildNames(t, p) && Listing(t', p) == Listing(t, p)
  {
    assert forall p | p in t :: (t'[p].Dir? <==> t[p].Dir?) && (t'[p].Link? <==> t[p].Link?);
    forall p
      ensures ChildNames(t', p) == ChildNames(t, p)
    {
      assert forall n :: n in ChildNames(t', p) <==> n in ChildNames(t, p);
    }
  }

  lemma RemodedTwice(t: Tree, u: Tree, v: Tree, mode: nat, first: Path -> bool, second: Path -> bool, both: Path -> bool)
    requires Remoded(t, u, mode, first) && Remoded(u, v, mode, second)
    requires forall q | q in t :: both(q) <==> first(q) || second(q)
    ensures Remoded(t, v, mode, both)
  {}

  lemma {:induction false} ModeSet(t: Tree, p: Path, mode: nat, nonRecursive: bool)
    requires WellFormed(t)
    ensures P.ChmodTree(t, p, mode, nonRecursive).Some? <==>
              p in t && (t[p].Dir? && !nonRecursive ==> Shallow(t, p))
    ensures P.ChmodTree(t, p, mode, nonRecursive).Some? ==>
              Remoded(t, P.ChmodTree(t, p, mode, nonRecursive).value, mode, q => Covers(p, nonRecursive, q))
    decreases P.Depth(p), 1, 0
  {
    if p !in t {
      return;
    }
    if !t[p].Dir? {
      NothingBelow(t, p);
      return;
    }
    var u := Chmod(t, p, mode);
    var self := (q: Path) => q == p;
    assert Remoded(t, u, mode, self);
    RemodedWellFormed(t, u, mode, self);
    if !nonRecursive && |p| <= MAX_DEPTH {
      var names := Listing(u, p).value;
      ModesSet(u, p, mode, names);
      BelowListed(t, p, names);
      DirModeSet(t, u, p, mode, names);
    }
  }

  /** What lies below a directory lies at or below one of its children. */
  lemma BelowListed(t: Tree, p: Path, names: seq<string>)
    requires WellFormed(t) && forall n :: n in names <==> p + [n] in t
    ensures forall q | q in t :: p < q <==> BelowAny(p, names, q)
    ensures p in t && |p| <= MAX_DEPTH ==> (Shallow(t, p) <==> forall n | n in names :: Shallow(t, p + [n]))
  {
    forall q | q in t
      ensures p < q <==> BelowAny(p, names, q)
    {
      if p < q {
        var c := q[..|p| + 1];
        AncestorIn(t, q, c);
        assert c == p + [q[|p|]];
      }
    }
    if forall n | n in names :: Shallow(t, p + [n]) {
      forall q | q in t && p <= q && t[q].Dir? && |p| <= MAX_DEPTH
        ensures |q| <= MAX_DEPTH
      {
        if p < q {
          assert BelowAny(p, names, q);
        }
      }
    }
  }

  lemma DirModeSet(t: Tree, u: Tree, p: Path, mode: nat, names: seq<string>)
    requires Remoded(t, u, mode, q => q == p) && P.ChmodAll(u, p, mode, names).Some? ==>
               Remoded(u, P.ChmodAll(u, p, mode, names).value, mode, q => BelowAny(p, names, q))
    requires Remoded(t, u, mode, q => q == p) && |p| <= MAX_DEPTH
    requires forall q | q in t :: p < q <==> BelowAny(p, names, q)
    ensures P.ChmodAll(u, p, mode, names).Some? ==>
              Remoded(t, P.ChmodAll(u, p, mode, names).value, mode, q => Covers(p, false, q))
  {
    if P.ChmodAll(u, p, mode, names).Some? {
      RemodedTwice(t, u, P.ChmodAll(u, p, mode, names).value, mode, q => q == p, q => BelowAny(p, names, q),
                   q => Covers(p, false, q));
    }
  }

  lemma NothingBelow(t: Tree, p: Path)
    requires WellFormed(t) && p in t && !t[p].Dir?
    ensures forall q | q in t && p <= q :: q == p
  {
    forall q | q in t && p <= q
      ensures q == p
    {
      AncestorIn(t, q, p);
    }
  }

  ghost predicate BelowAny(p: Path, names: seq<string>, q: Path) {
    exists n | n in names :: p + [n] <= q
  }

  lemma {:induction false} ModesSet(t: Tree, p: Path, mode: nat, names: seq<string>)
    requires WellFormed(t) && |p| <= MAX_DEPTH && forall n | n in names :: p + [n] in t
    ensures P.ChmodAll(t, p, mode, names).Some? <==> forall n | n in names :: Shallow(t, p + [n])
    ensures P.ChmodAll(t, p, mode, names).Some? ==>
              Remoded(t, P.ChmodAll(t, p, mode, names).value, mode, q => BelowAny(p, names, q))
    decreases P.Depth(p), 0, |names|
  {
    if names != [] {
      var c := p + [names[0]];
      ModeSet(t, c, mode, false);
      if !t[c].Dir? {
        NothingBelow(t, c);
      }
      assert Shallow(t, c) <==> P.ChmodTree(t, c, mode, false).Some?;
      if P.ChmodTree(t, c, mode, false).Some? {
        var u := P.ChmodTree(t, c, mode, false).value;
        var first, rest := (q: Path) => Covers(c, false, q), (q: Path) => BelowAny(p, names[1..], q);
        RemodedWellFormed(t, u, mode, first);
        ModesSet(u, p, mode, names[1..]);
        assert forall n | n in names :: n == names[0] || n in names[1..];
        if P.ChmodAll(u, p, mode, names[1..]).Some? {
          RemodedTwice(t, u, P.ChmodAll(u, p, mode, names[1..]).value, mode, first, rest, q => BelowAny(p, names, q));
        }
      }
    }
  }

  // ----- whole patterns of modes -----

  ghost predicate CoveredBy(paths: seq<Path>, nonRecursive: bool, q: Path) {
    exists p | p in paths :: Covers(p, nonRecursive, q)
  }

  lemma CoveredFirst(paths: seq<Path>, nonRecursive: bool)
    requires paths != []
    ensures forall q :: CoveredBy(paths, nonRecursive, q) <==>
                        Covers(paths[0], nonRecursive, q) || CoveredBy(paths[1..], nonRecursive, q)
  {
    hide Covers;
    assert forall p | p in paths :: p == paths[0] || p in paths[1..];
  }

  lemma ShallowFirst(t: Tree, paths: seq<Path>)
    requires paths != []
    ensures (forall p | p in paths :: Shallow(t, p)) <==> Shallow(t, paths[0]) && forall p | p in paths[1..] :: Shallow(t, p)
  {
    hide Shallow;
    assert forall p | p in paths :: p == paths[0] || p in paths[1..];
  }

  lemma ShallowUnlessDir(t: Tree, p: Path)
    requires WellFormed(t) && p in t
    ensures !t[p].Dir? ==> Shallow(t, p)
  {
    if !t[p].Dir? {
      NothingBelow(t, p);
    }
  }

  lemma {:induction false} EachModeSet(t: Tree, paths: seq<Path>, mode: nat, nonRecursive: bool)
    requires WellFormed(t) && forall p | p in paths :: p in t
    ensures P.ChmodEach(t, paths, mode, nonRecursive).Some? <==>
              nonRecursive || forall p | p in paths :: Shallow(t, p)
    ensures P.ChmodEach(t, paths, mode, nonRecursive).Some? ==>
              Remoded(t, P.ChmodEach(t, paths, mode, nonRecursive).value, mode, q => CoveredBy(paths, nonRecursive, q))
    decreases |paths|
  {
    if paths != [] {
      hide WellFormed, Shallow, Covers, CoveredBy, Remoded, P.ChmodTree;
      var p, rest := paths[0], paths[1..];
      ModeSet(t, p, mode, nonRecursive);
      ShallowUnlessDir(t, p);
      ShallowFirst(t, paths);
      if P.ChmodTree(t, p, mode, nonRecursive).Some? {
        var u := P.ChmodTree(t, p, mode, nonRecursive).value;
        RemodedWellFormed(t, u, mode, q => Covers(p, nonRecursive, q));
        EachModeSet(u, rest, mode, nonRecursive);
        CoveredFirst(paths, nonRecursive);
        if P.ChmodEach(u, rest, mode, nonRecursive).Some? {
          RemodedTwice(t, u, P.ChmodEach(u, rest, mode, nonRecursive).value, mode, q => Covers(p, nonRecursive, q),
                       q => CoveredBy(rest, nonRecursive, q), q => CoveredBy(paths, nonRecursive, q));
        }
      }
    }
  }

  /** An entry that one of the patterns matches covers `q`. */
  ghost predicate MatchCovers(t: Tree, patterns: seq<Path>, nonRecursive: bool, q: Path) {
    exists p | p in t :: (exists pattern | pattern in patterns :: PathMatches(pattern, p)) && Covers(p, nonRecursive, q)
  }

  /** What a match covers has the mode, and all else is as it was. */
  ghost predicate MatchesRemoded(t: Tree, t': Tree, patterns: seq<Path>, mode: nat, nonRecursive: bool) {
    Remoded(t, t', mode, q => MatchCovers(t, patterns, nonRecursive, q))
  }

  lemma {:induction false} PatternsModeSet(t: Tree, patterns: seq<Path>, mode: nat, nonRecursive: bool)
    requires WellFormed(t)
    ensures P.ChmodPatterns(t, patterns, mode, nonRecursive).Some? ==>
              MatchesRemoded(t, P.ChmodPatterns(t, patterns, mode, nonRecursive).value, patterns, mode, nonRecursive)
    decreases |patterns|
  {
    if patterns != [] && P.ChmodPatterns(t, patterns, mode, nonRecursive).Some? {
      var paths := Expand(t, patterns[0]).value;
      Listed(t, patterns[0]);
      EachModeSet(t, paths, mode, nonRecursive);
      var u := P.ChmodEach(t, paths, mode, nonRecursive).value;
      var first, rest := (q: Path) => CoveredBy(paths, nonRecursive, q), (q: Path) => MatchCovers(t, patterns[1..], nonRecursive, q);
      RemodedWellFormed(t, u, mode, first);
      PatternsModeSet(u, patterns[1..], mode, nonRecursive);
      assert Remoded(u, P.ChmodPatterns(u, patterns[1..], mode, nonRecursive).value, mode, rest);
      assert forall p | p in patterns :: p == patterns[0] || p in patterns[1..];
      RemodedTwice(t, u, P.ChmodPatterns(u, patterns[1..], mode, nonRecursive).value, mode, first, rest,
                   q => MatchCovers(t, patterns, nonRecursive, q));
    }
  }

  // ----- removals -----

  /** The filters of a removal let the entry through. */
  ghost predicate Chosen(n: Node, link: Option<string>, content: Option<string>) {
    && (link.Some? ==> n.Link? && Occurs(link.value, n.target))
    && (content.Some? ==> n.File? && Occurs(content.value, n.content))
  }

  lemma ChosenIsSelected(n: Node, link: Option<string>, content: Option<string>)
    ensures P.Selected(n, link, content) <==> Chosen(n, link, content)
  {
    if link.Some? && n.Link? {
      OccursAt(link.value, n.target);
    }
    if content.Some? && n.File? {
      OccursAt(content.value, n.content);
    }
  }

  /** Exactly what `gone` selects has gone. */
  ghost predicate Lost(t: Tree, t': Tree, gone: Path -> bool) {
    && (forall q :: q in t' <==> q in t && !gone(q))
    && (forall q | q in t' :: t'[q] == t[q])
  }

  ghost predicate UnderChosen(t: Tree, paths: seq<Path>, link: Option<string>, content: Option<string>, q: Path) {
    exists p | p in paths :: p in t && Chosen(t[p], link, content) && p <= q
  }

  /** Without `recursive` no directory may be chosen. */
  ghost predicate MayRemove(t: Tree, paths: seq<Path>, recursive: bool, link: Option<string>, content: Option<string>) {
    recursive || forall p | p in paths && p in t && Chosen(t[p], link, content) :: !t[p].Dir?
  }

  lemma LostTwice(t: Tree, u: Tree, v: Tree, first: Path -> bool, second: Path -> bool, both: Path -> bool)
    requires Lost(t, u, first) && Lost(u, v, second)
    requires forall q | q in t :: both(q) <==> first(q) || second(q)
    ensures Lost(t, v, both)
  {}

  lemma LostAlike(t: Tree, v: Tree, one: Path -> bool, other: Path -> bool)
    requires Lost(t, v, one) && forall q | q in t :: one(q) <==> other(q)
    ensures Lost(t, v, other)
  {}

  lemma NotChosen(t: Tree, paths: seq<Path>, recursive: bool, link: Option<string>, content: Option<string>)
    requires paths != [] && (paths[0] !in t || !Chosen(t[paths[0]], link, content))
    ensures forall q :: UnderChosen(t, paths[1..], link, content, q) <==> UnderChosen(t, paths, link, content, q)
    ensures MayRemove(t, paths[1..], recursive, link, content) <==> MayRemove(t, paths, recursive, link, content)
  {
    hide Chosen;
    assert forall q | q in paths :: q == paths[0] || q in paths[1..];
  }

  lemma {:induction false} EachRemoved(t: Tree, paths: seq<Path>, recursive: bool, link: Option<string>, content: Option<string>)
    requires WellFormed(t) && [] !in paths
    ensures P.RemoveEach(t, paths, recursive, link, content).Some? <==> MayRemove(t, paths, recursive, link, content)
    ensures P.RemoveEach(t, paths, recursive, link, content).Some? ==>
              && WellFormed(P.RemoveEach(t, paths, recursive, link, content).value)
              && Lost(t, P.RemoveEach(t, paths, recursive, link, content).value, q => UnderChosen(t, paths, link, content, q))
    decreases |paths|
  {
    if paths != [] {
      hide Chosen, WellFormed, Lost, UnderChosen, MayRemove, P.Selected;
      var p, rest := paths[0], paths[1..];
      if p in t {
        ChosenIsSelected(t[p], link, content);
      }
      if p !in t || !Chosen(t[p], link, content) {
        EachRemoved(t, rest, recursive, link, content);
        NotChosen(t, paths, recursive, link, content);
        if P.RemoveEach(t, rest, recursive, link, content).Some? {
          LostAlike(t, P.RemoveEach(t, rest, recursive, link, content).value, q => UnderChosen(t, rest, link, content, q),
                    q => UnderChosen(t, paths, link, content, q));
        }
      } else if !t[p].Dir? || recursive {
        WithoutWellFormed(t, p);
        EachRemoved(Without(t, p), rest, recursive, link, content);
        RemovedFirst(t, paths, recursive, link, content);
        if P.RemoveEach(Without(t, p), rest, recursive, link, content).Some? {
          LostBelow(t, p);
          LostTwice(t, Without(t, p), P.RemoveEach(Without(t, p), rest, recursive, link, content).value, q => p <= q,
                    q => UnderChosen(Without(t, p), rest, link, content, q), q => UnderChosen(t, paths, link, content, q));
        }
      } else {
        MayNotRemove(t, paths, link, content);
      }
    }
  }

  lemma LostBelow(t: Tree, p: Path)
    ensures Lost(t, Without(t, p), q => p <= q)
  {}

  lemma MayNotRemove(t: Tree, paths: seq<Path>, link: Option<string>, content: Option<string>)
    requires paths != [] && paths[0] in t && Chosen(t[paths[0]], link, content) && t[paths[0]].Dir?
    ensures !MayRemove(t, paths, false, link, content)
  {
    hide Chosen;
  }

  lemma RemovedFirst(t: Tree, paths: seq<Path>, recursive: bool, link: Option<string>, content: Option<string>)
    requires WellFormed(t) && paths != [] && paths[0] in t && Chosen(t[paths[0]], link, content) && (!t[paths[0]].Dir? || recursive)
    ensures MayRemove(Without(t, paths[0]), paths[1..], recursive, link, content) <==> MayRemove(t, paths, recursive, link, content)
    ensures forall q | q in t :: paths[0] <= q || UnderChosen(Without(t, paths[0]), paths[1..], link, content, q) <==>
                                 UnderChosen(t, paths, link, content, q)
  {
    hide Chosen;
    var p, u := paths[0], Without(t, paths[0]);
    assert forall q | q in paths :: q == p || q in paths[1..];
    forall q | q in t
      ensures p <= q || UnderChosen(u, paths[1..], link, content, q) <==> UnderChosen(t, paths, link, content, q)
    {
      if UnderChosen(t, paths, link, content, q) && !(p <= q) {
        var f :| f in paths && f in t && Chosen(t[f], link, content) && f <= q;
        assert f in u && u[f] == t[f];
      }
    }
    if MayRemove(u, paths[1..], recursive, link, content) && !recursive {
      NothingBelow(t, p);
      forall f | f in paths && f in t && Chosen(t[f], link, content)
        ensures !t[f].Dir?
      {
        assert f != p ==> f in u && u[f] == t[f];
      }
    }
  }

  lemma UnderMore(t: Tree, paths: seq<Path>, link: Option<string>, content: Option<string>, p: Path, q: Path)
    requires p <= q
    ensures UnderChosen(t, paths, link, content, p) ==> UnderChosen(t, paths, link, content, q)
  {
    if UnderChosen(t, paths, link, content, p) {
      var f :| f in paths && f in t && Chosen(t[f], link, content) && f <= p;
      assert f <= q;
    }
  }

  ghost predicate UnderMatch(t: Tree, patterns: seq<Path>, link: Option<string>, content: Option<string>, q: Path) {
    exists p | p in t :: (exists pattern | pattern in patterns :: PathMatches(pattern, p)) && Chosen(t[p], link, content) && p <= q
  }

  /** The chosen matches have gone with all below them, and nothing else has changed. */
  ghost predicate MatchesLost(t: Tree, t': Tree, patterns: seq<Path>, link: Option<string>, content: Option<string>) {
    Lost(t, t', q => UnderMatch(t, patterns, link, content, q))
  }

  /** Without `recursive` no directory that matches may be chosen. */
  ghost predicate MayRemoveMatches(t: Tree, patterns: seq<Path>, recursive: bool, link: Option<string>, content: Option<string>) {
    recursive || forall p, pattern | p in t && pattern in patterns && PathMatches(pattern, p) && Chosen(t[p], link, content) ::
                   !t[p].Dir?
  }

  lemma {:induction false} PatternsRemoved(t: Tree, patterns: seq<Path>, recursive: bool, link: Option<string>, content: Option<string>)
    requires WellFormed(t) && [] !in patterns
    ensures P.RemoveAll(t, patterns, recursive, link, content).Some? ==>
              && MatchesLost(t, P.RemoveAll(t, patterns, recursive, link, content).value, patterns, link, content)
              && MayRemoveMatches(t, patterns, recursive, link, content)
    decreases |patterns|
  {
    if patterns != [] && P.RemoveAll(t, patterns, recursive, link, content).Some? {
      hide WellFormed, Lost, UnderChosen, UnderMatch, MayRemove, MayRemoveMatches, P.RemoveEach, Expand;
      var paths, rest := Expand(t, patterns[0]).value, patterns[1..];
      Listed(t, patterns[0]);
      EachRemoved(t, paths, recursive, link, content);
      var u := P.RemoveEach(t, paths, recursive, link, content).value;
      PatternsRemoved(u, rest, recursive, link, content);
      RemovedPattern(t, u, patterns, paths, recursive, link, content);
      LostTwice(t, u, P.RemoveAll(u, rest, recursive, link, content).value, q => UnderChosen(t, paths, link, content, q),
                q => UnderMatch(u, rest, link, content, q), q => UnderMatch(t, patterns, link, content, q));
    } else if patterns == [] {
      assert forall q :: !UnderMatch(t, patterns, link, content, q);
    }
  }

  lemma Listed(t: Tree, pattern: Path)
    requires WellFormed(t) && Expand(t, pattern).Some?
    ensures forall p :: p in Expand(t, pattern).value <==> p in t && PathMatches(pattern, p)
    ensures pattern != [] ==> [] !in Expand(t, pattern).value
  {
    forall p
      ensures p in Expand(t, pattern).value <==> p in t && PathMatches(pattern, p)
    {
      ExpandExact(t, pattern, p);
    }
  }

  lemma RemovedPattern(t: Tree, u: Tree, patterns: seq<Path>, paths: seq<Path>, recursive: bool, link: Option<string>, content: Option<string>)
    requires WellFormed(t) && patterns != [] && MayRemove(t, paths, recursive, link, content)
    requires forall p :: p in paths <==> p in t && PathMatches(patterns[0], p)
    requires Lost(t, u, q => UnderChosen(t, paths, link, content, q))
    ensures forall q | q in t :: UnderMatch(t, patterns, link, content, q) <==>
                                 UnderChosen(t, paths, link, content, q) || UnderMatch(u, patterns[1..], link, content, q)
    ensures MayRemoveMatches(u, patterns[1..], recursive, link, content) ==>
            MayRemoveMatches(t, patterns, recursive, link, content)
  {
    hide Chosen, PathMatches;
    assert forall pattern | pattern in patterns :: pattern == patterns[0] || pattern in patterns[1..];
    forall q | q in t
      ensures UnderMatch(t, patterns, link, content, q) <==>
              UnderChosen(t, paths, link, content, q) || UnderMatch(u, patterns[1..], link, content, q)
    {
      if UnderMatch(t, patterns, link, content, q) && !UnderChosen(t, paths, link, content, q) {
        var p :| p in t && (exists pattern | pattern in patterns :: PathMatches(pattern, p)) && Chosen(t[p], link, content) && p <= q;
        UnderMore(t, paths, link, content, p, q);
        assert p in u;
      }
    }
    if !recursive {
      forall p, pattern | p in t && pattern in patterns && PathMatches(pattern, p) && Chosen(t[p], link, content) && p !in u
        ensures !t[p].Dir?
      {
        var f :| f in paths && f in t && Chosen(t[f], link, content) && f <= p;
        NothingBelow(t, f);
      }
    }
  }
}
