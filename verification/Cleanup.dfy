/** Pruning the prefix: broken links and the directories that hold nothing else. */
module Cleanup {
  import opened Text
  import opened FileTree
  import opened FileSystems

  datatype Kind = PrefixSymlink | PrefixDirectory

  type Candidates = map<Path, Kind>

  /** The directories below the prefix that links are made in. */
  function LinkRoots(prefix: Path): (roots: seq<Path>)
    ensures forall i | 0 <= i < |roots| :: prefix < roots[i]
  {
    [prefix + ["Frameworks"], prefix + ["bin"], prefix + ["etc"], prefix + ["include"], prefix + ["lib"],
     prefix + ["opt"], prefix + ["sbin"], prefix + ["share"], prefix + ["var", "homebrew", "linked"]]
  }

  lemma RootsApart(prefix: Path)
    ensures forall i, j | 0 <= i < |LinkRoots(prefix)| && 0 <= j < |LinkRoots(prefix)| && i != j ::
              Apart(LinkRoots(prefix)[i], LinkRoots(prefix)[j])
  {
    var names := ["Frameworks", "bin", "etc", "include", "lib", "opt", "sbin", "share", "var"];
    var roots := LinkRoots(prefix);
    assert forall i | 0 <= i < |roots| :: |roots[i]| > |prefix| && roots[i][|prefix|] == names[i];
    forall i, j | 0 <= i < |roots| && 0 <= j < |roots| && i != j
      ensures Apart(roots[i], roots[j])
    {
      NamesDiffer(i, j);
    }
  }

  /** Strictly below one of the directories that links are made in. */
  ghost predicate InLinkDirectory(prefix: Path, p: Path) {
    && prefix < p
    && ((|p| > |prefix| + 1 &&
         p[|prefix|] in {"Frameworks", "bin", "etc", "include", "lib", "opt", "sbin", "share"}) ||
        (|p| > |prefix| + 3 && p[|prefix|] == "var" && p[|prefix| + 1] == "homebrew" && p[|prefix| + 2] == "linked"))
  }

  lemma OneBelow(prefix: Path, name: string, p: Path)
    ensures prefix + [name] < p <==> prefix < p && |p| > |prefix| + 1 && p[|prefix|] == name
  {
    if prefix < p && |p| > |prefix| + 1 && p[|prefix|] == name {
      assert p[..|prefix| + 1] == prefix + [name];
    }
  }

  lemma ThreeBelow(prefix: Path, a: string, b: string, c: string, p: Path)
    ensures prefix + [a, b, c] < p <==>
            prefix < p && |p| > |prefix| + 3 && p[|prefix|] == a && p[|prefix| + 1] == b && p[|prefix| + 2] == c
  {
    if prefix < p && |p| > |prefix| + 3 && p[|prefix|] == a && p[|prefix| + 1] == b && p[|prefix| + 2] == c {
      assert p[..|prefix| + 3] == prefix + [a, b, c];
    }
    if prefix + [a, b, c] < p {
      var root := prefix + [a, b, c];
      assert root[|prefix|] == a && root[|prefix| + 1] == b && root[|prefix| + 2] == c && root[..|prefix|] == prefix;
    }
  }

  lemma BelowRootsExactly(prefix: Path, p: Path)
    ensures BelowSome(LinkRoots(prefix), p) <==> InLinkDirectory(prefix, p)
  {
    var names := ["Frameworks", "bin", "etc", "include", "lib", "opt", "sbin", "share"];
    var roots := LinkRoots(prefix);
    assert |roots| == 9 && roots[8] == prefix + ["var", "homebrew", "linked"];
    forall i | 0 <= i < 8
      ensures roots[i] < p <==> prefix < p && |p| > |prefix| + 1 && p[|prefix|] == names[i]
    {
      OneBelow(prefix, names[i], p);
    }
    ThreeBelow(prefix, "var", "homebrew", "linked", p);
    assert |p| > |prefix| && p[|prefix|] in {"Frameworks", "bin", "etc", "include", "lib", "opt", "sbin", "share"} ==>
             exists i | 0 <= i < 8 :: names[i] == p[|prefix|] by {
      assert names[0] == "Frameworks" && names[1] == "bin" && names[2] == "etc" && names[3] == "include";
      assert names[4] == "lib" && names[5] == "opt" && names[6] == "sbin" && names[7] == "share";
    }
  }

  lemma NamesDiffer(i: nat, j: nat)
    requires i < 9 && j < 9 && i != j
    ensures var names := ["Frameworks", "bin", "etc", "include", "lib", "opt", "sbin", "share", "var"];
            names[i] != names[j]
  {}

  // ----- what is removed -----

  /** The entries that following each link takes; where the links lead is not changed by the pruning. */
  type Route = Path -> set<Path>

  /** A link is broken if following it meets a missing entry. */
  function BrokenIn(t: Tree, route: Route): Path -> bool {
    p => exists q | q in route(p) :: q !in t
  }

  predicate IsBrokenLink(t: Tree, broken: Path -> bool, p: Path) {
    p in t && t[p].Link? && broken(p)
  }

  /** A directory with nothing below it but directories and broken links. */
  predicate Hollow(t: Tree, broken: Path -> bool, d: Path) {
    && d in t && t[d].Dir?
    && forall q | q in t && d < q :: t[q].Dir? || IsBrokenLink(t, broken, q)
  }

  predicate Removable(t: Tree, broken: Path -> bool, p: Path) {
    IsBrokenLink(t, broken, p) || Hollow(t, broken, p)
  }

  predicate BelowSome(roots: seq<Path>, p: Path) {
    exists i | 0 <= i < |roots| :: roots[i] < p
  }

  /** What the pruning may take away: all strictly below a root that is a real directory. */
  function Doomed(t: Tree, broken: Path -> bool, roots: seq<Path>): set<Path> {
    set p | p in t && BelowSome(roots, p) && Removable(t, broken, p)
  }

  function Pruned(t: Tree, broken: Path -> bool, roots: seq<Path>): Tree {
    t - Doomed(t, broken, roots)
  }

  /** A directory is hollow exactly if each child is a broken link or a hollow directory. */
  lemma HollowByChildren(t: Tree, broken: Path -> bool, d: Path)
    requires WellFormed(t) && d in t && t[d].Dir?
    ensures Hollow(t, broken, d) <==> forall n | d + [n] in t :: Removable(t, broken, d + [n])
  {
    if forall n | d + [n] in t :: Removable(t, broken, d + [n]) {
      forall q | q in t && d < q
        ensures t[q].Dir? || IsBrokenLink(t, broken, q)
      {
        var n := ChildTowards(t, d, q);
        assert Removable(t, broken, d + [n]);
        assert d + [n] != q ==> d + [n] < q;
      }
    }
    forall n | d + [n] in t && Hollow(t, broken, d)
      ensures Removable(t, broken, d + [n])
    {
      assert d < d + [n];
      assert forall q | q in t && d + [n] < q :: d < q;
    }
  }

  /** The child of a directory on the way down to `q`. */
  lemma ChildTowards(t: Tree, d: Path, q: Path) returns (n: string)
    requires WellFormed(t) && q in t && d < q
    ensures d + [n] in t && d + [n] <= q && (d + [n] != q ==> t[d + [n]].Dir?)
  {
    n := q[|d|];
    assert d + [n] == q[..|d| + 1];
    AncestorIn(t, q, d + [n]);
  }

  // ----- what a pruning leaves -----

  /** A file, or a link that can be followed. */
  predicate IsUseful(t: Tree, broken: Path -> bool, p: Path) {
    p in t && !t[p].Dir? && !(t[p].Link? && broken(p))
  }

  /** Something useful lies at or below `p`. */
  predicate HoldsUseful(t: Tree, broken: Path -> bool, p: Path) {
    exists q | q in t && p <= q :: IsUseful(t, broken, q)
  }

  /** An entry goes exactly if it lies strictly below a root and holds nothing useful; what stays is as it was. */
  lemma GoneExactly(t: Tree, broken: Path -> bool, roots: seq<Path>, p: Path)
    requires WellFormed(t) && p in t
    ensures p in Pruned(t, broken, roots) ==> Pruned(t, broken, roots)[p] == t[p]
    ensures p !in Pruned(t, broken, roots) <==> BelowSome(roots, p) && !HoldsUseful(t, broken, p)
  {
    if t[p].Dir? {
      forall q | q in t && p <= q && IsUseful(t, broken, q)
        ensures p < q
      {
        assert q != p;
      }
    } else {
      BelowNonDir(t, p);
      assert p <= p;
    }
  }

  /** Nothing at or below the entry but directories and links that lead to a missing entry. */
  ghost predicate Worthless(t: Tree, route: Route, p: Path) {
    forall q | q in t && p <= q :: t[q].Dir? || (t[q].Link? && exists x | x in route(q) :: x !in t)
  }

  lemma WorthlessExactly(t: Tree, route: Route, prefix: Path, p: Path)
    ensures BelowSome(LinkRoots(prefix), p) && !HoldsUseful(t, BrokenIn(t, route), p) <==>
            InLinkDirectory(prefix, p) && Worthless(t, route, p)
  {
    hide LinkRoots, InLinkDirectory, BelowSome;
    BelowRootsExactly(prefix, p);
    forall q | q in t
      ensures IsUseful(t, BrokenIn(t, route), q) <==> !(t[q].Dir? || (t[q].Link? && exists x | x in route(q) :: x !in t))
    {}
  }

  lemma RootsSurvive(t: Tree, broken: Path -> bool, prefix: Path, i: nat)
    requires i < |LinkRoots(prefix)| && LinkRoots(prefix)[i] in t
    ensures LinkRoots(prefix)[i] in Pruned(t, broken, LinkRoots(prefix))
  {
    RootsApart(prefix);
    var roots := LinkRoots(prefix);
    assert forall j | 0 <= j < |roots| :: !(roots[j] < roots[i]);
  }

  /** Below a root every directory that is left holds something that is left. */
  lemma NoEmptyDirectoryLeft(t: Tree, broken: Path -> bool, roots: seq<Path>, d: Path)
    requires WellFormed(t) && d in Pruned(t, broken, roots) && t[d].Dir? && BelowSome(roots, d)
    ensures HasChildren(Pruned(t, broken, roots), d)
  {
    HollowByChildren(t, broken, d);
    var n :| d + [n] in t && !Removable(t, broken, d + [n]);
    assert d + [n] in Pruned(t, broken, roots) && Parent(d + [n]) == d;
  }

  lemma PrunedWellFormed(t: Tree, broken: Path -> bool, roots: seq<Path>)
    requires WellFormed(t)
    ensures WellFormed(Pruned(t, broken, roots))
  {}

  /** While the same links are broken, pruning again takes nothing more away. */
  lemma PruningIsIdempotent(t: Tree, broken: Path -> bool, roots: seq<Path>)
    requires WellFormed(t)
    ensures Doomed(Pruned(t, broken, roots), broken, roots) == {}
  {
    var t' := Pruned(t, broken, roots);
    PrunedWellFormed(t, broken, roots);
    forall p | p in t' && BelowSome(roots, p)
      ensures !Removable(t', broken, p)
    {
      DeepestStays(t, broken, roots, p);
    }
  }

  /** What is doomed depends on the links below the roots only. */
  lemma DoomedDepends(t: Tree, broken: Path -> bool, broken': Path -> bool, roots: seq<Path>)
    requires forall p | p in t && BelowSome(roots, p) && t[p].Link? :: broken(p) == broken'(p)
    ensures Doomed(t, broken, roots) == Doomed(t, broken', roots)
  {
    forall p | p in t && BelowSome(roots, p)
      ensures Removable(t, broken, p) == Removable(t, broken', p)
    {
      forall q | q in t && p < q
        ensures BelowSome(roots, q)
      {
        var i :| 0 <= i < |roots| && roots[i] < p;
        assert roots[i] < q;
      }
    }
  }

  /** A second pruning finds nothing exactly if the first one took nothing away that a link it left leads through. */
  lemma SecondPruningExactly(t: Tree, route: Route, roots: seq<Path>)
    requires WellFormed(t)
    ensures var t' := Pruned(t, BrokenIn(t, route), roots);
            Doomed(t', BrokenIn(t', route), roots) == {} <==>
            forall p, q | p in t' && BelowSome(roots, p) && t'[p].Link? && q in route(p) :: q in t ==> q in t'
  {
    hide Hollow;
    var broken := BrokenIn(t, route);
    var t' := Pruned(t, broken, roots);
    var broken' := BrokenIn(t', route);
    if forall p, q | p in t' && BelowSome(roots, p) && t'[p].Link? && q in route(p) :: q in t ==> q in t' {
      PruningIsIdempotent(t, broken, roots);
      forall p | p in t' && BelowSome(roots, p) && t'[p].Link?
        ensures broken(p) == broken'(p)
      {}
      DoomedDepends(t', broken, broken', roots);
    } else {
      var p, q :| p in t' && BelowSome(roots, p) && t'[p].Link? && q in route(p) && q in t && q !in t';
      assert p in Doomed(t', broken', roots);
    }
  }

  /** A link to a directory that is hollow survives the pruning that removes the directory, and is broken then. */
  lemma LinkToHollowBreaks(t: Tree, route: Route, roots: seq<Path>, l: Path, d: Path)
    requires WellFormed(t) && l in t && t[l].Link? && Hollow(t, BrokenIn(t, route), d) && d in route(l)
    requires BelowSome(roots, l) && BelowSome(roots, d) && forall q | q in route(l) :: q in t
    ensures var t' := Pruned(t, BrokenIn(t, route), roots);
            l in Doomed(t', BrokenIn(t', route), roots)
  {
    var broken := BrokenIn(t, route);
    assert !broken(l);
    var t' := Pruned(t, broken, roots);
    assert d !in t' && l in t';
  }

  /** Such a tree. */
  lemma SecondPruningMayFind() returns (t: Tree, route: Route)
    ensures WellFormed(t)
    ensures var t' := Pruned(t, BrokenIn(t, route), LinkRoots([]));
            Doomed(t', BrokenIn(t', route), LinkRoots([])) != {}
  {
    hide Pruned, Doomed, Hollow, LinkRoots, BelowSome;
    var l, e := ["bin", "l"], ["lib", "e"];
    t := SmallTree(l, e);
    route := p => if p == l then {e} else {};
    BelowBinAndLib(l, e);
    HollowAlone(t, BrokenIn(t, route), e);
    LinkToHollowBreaks(t, route, LinkRoots([]), l, e);
  }

  lemma SmallTree(l: Path, e: Path) returns (t: Tree)
    requires l == ["bin", "l"] && e == ["lib", "e"]
    ensures WellFormed(t) && l in t && t[l].Link? && e in t && t[e].Dir? && forall q | q in t :: |q| <= 2
  {
    var bin, lib := ["bin"], ["lib"];
    t := map[[] := Dir(0), bin := Dir(0), lib := Dir(0), l := Link("../lib/e"), e := Dir(0)];
    assert "bin"[0] != "lib"[0];
    assert bin[0] != lib[0] && l[0] != e[0];
    assert Parent(bin) == [] && Parent(lib) == [] && Parent(l) == bin && Parent(e) == lib;
  }

  lemma BelowBinAndLib(l: Path, e: Path)
    requires l == ["bin", "l"] && e == ["lib", "e"]
    ensures BelowSome(LinkRoots([]), l) && BelowSome(LinkRoots([]), e)
  {
    var roots := LinkRoots([]);
    assert roots[1] == ["bin"] && roots[4] == ["lib"];
    assert roots[1] < l && roots[4] < e;
  }

  lemma HollowAlone(t: Tree, broken: Path -> bool, d: Path)
    requires d in t && t[d].Dir? && forall q | q in t :: |q| <= |d|
    ensures Hollow(t, broken, d)
  {}

  /** What stays below a root and is no unbroken link or file leads down to one that is. */
  lemma {:induction false} DeepestStays(t: Tree, broken: Path -> bool, roots: seq<Path>, p: Path)
    requires WellFormed(t) && p in Pruned(t, broken, roots) && BelowSome(roots, p)
    ensures !Removable(Pruned(t, broken, roots), broken, p)
  {
    var t' := Pruned(t, broken, roots);
    assert !Removable(t, broken, p);
    if t[p].Dir? {
      var q :| q in t && p < q && !t[q].Dir? && !IsBrokenLink(t, broken, q);
      var i :| 0 <= i < |roots| && roots[i] < p;
      assert roots[i] < q;
      assert q in t';
    }
  }

  // ----- planning -----

  function BrokenBelow(t: Tree, broken: Path -> bool, dir: Path): set<Path> {
    set p | p in t && dir < p && IsBrokenLink(t, broken, p)
  }

  function BrokenFrom(t: Tree, broken: Path -> bool, p: Path): set<Path> {
    set q | q in t && p <= q && IsBrokenLink(t, broken, q)
  }

  /** The broken links at or below the first `i` of the named children. */
  function BrokenAmong(t: Tree, broken: Path -> bool, dir: Path, names: seq<string>, i: nat): set<Path>
    requires i <= |names|
  {
    set p | p in t && IsBrokenLink(t, broken, p) && exists k | 0 <= k < i :: dir + [names[k]] <= p
  }

  lemma BrokenAmongNext(t: Tree, broken: Path -> bool, dir: Path, names: seq<string>, i: nat)
    requires i < |names|
    ensures BrokenAmong(t, broken, dir, names, i + 1)
         == BrokenAmong(t, broken, dir, names, i) + BrokenFrom(t, broken, dir + [names[i]])
  {}

  lemma BrokenAmongAll(t: Tree, broken: Path -> bool, dir: Path, names: seq<string>)
    requires WellFormed(t) && forall n :: n in names <==> dir + [n] in t
    ensures BrokenAmong(t, broken, dir, names, |names|) == BrokenBelow(t, broken, dir)
  {
    hide IsBrokenLink;
    forall p | p in BrokenBelow(t, broken, dir)
      ensures p in BrokenAmong(t, broken, dir, names, |names|)
    {
      var n := ChildTowards(t, dir, p);
      assert n in names;
    }
    forall p | p in BrokenAmong(t, broken, dir, names, |names|)
      ensures p in BrokenBelow(t, broken, dir)
    {
      var k :| 0 <= k < |names| && dir + [names[k]] <= p;
    }
  }

  lemma BrokenFromChild(t: Tree, broken: Path -> bool, p: Path)
    requires WellFormed(t) && p in t
    ensures BrokenFrom(t, broken, p)
         == if t[p].Dir? then BrokenBelow(t, broken, p) else if IsBrokenLink(t, broken, p) then {p} else {}
  {
    if t[p].Dir? {
      assert forall q | q in t && p <= q && q != p :: p < q;
    } else {
      BelowNonDir(t, p);
    }
  }

  /** The broken links below `dir`, or None when a directory cannot be read. */
  method CollectBrokenSymlinks(fs: FileSystem, broken: Path -> bool, dir: Path) returns (found: Option<set<Path>>)
    requires WellFormed(fs.tree) && dir in fs.tree && fs.tree[dir].Dir?
    ensures found.Some? ==> found.value == BrokenBelow(fs.tree, broken, dir)
    ensures fs.reliable && (forall p | p in fs.tree :: |p| <= MAX_DEPTH) ==> found.Some?
    decreases if |dir| <= MAX_DEPTH then MAX_DEPTH + 1 - |dir| else 0
  {
    hide BrokenBelow, BrokenFrom, BrokenAmong, WellFormed;
    var names := fs.ReadDir(dir);
    if names.None? {
      return None;
    }
    var all: set<Path> := {};
    NoneAmong(fs.tree, broken, dir, names.value);
    for i := 0 to |names.value|
      invariant all == BrokenAmong(fs.tree, broken, dir, names.value, i)
    {
      var path := dir + [names.value[i]];
      assert names.value[i] in names.value;
      BrokenAmongNext(fs.tree, broken, dir, names.value, i);
      BrokenFromChild(fs.tree, broken, path);
      if fs.tree[path].Link? {
        if broken(path) {
          all := all + {path};
        }
      } else if fs.tree[path].Dir? {
        var below := CollectBrokenSymlinks(fs, broken, path);
        if below.None? {
          return None;
        }
        all := all + below.value;
      }
    }
    BrokenAmongAll(fs.tree, broken, dir, names.value);
    return Some(all);
  }

  lemma NoneAmong(t: Tree, broken: Path -> bool, dir: Path, names: seq<string>)
    ensures BrokenAmong(t, broken, dir, names, 0) == {}
  {}

  lemma BelowNonDir(t: Tree, p: Path)
    requires WellFormed(t) && p in t && !t[p].Dir?
    ensures forall q | q in t && p <= q :: q == p
  {
    forall q | q in t && p <= q
      ensures q == p
    {
      AncestorIn(t, q, p);
    }
  }

  /** The links among the candidates are exactly the broken ones. */
  predicate KnowsBroken(t: Tree, broken: Path -> bool, dir: Path, candidates: Candidates) {
    forall p | p in t && dir < p && t[p].Link? :: (p in candidates && candidates[p].PrefixSymlink?) <==> broken(p)
  }

  function Extended(candidates: Candidates, dirs: set<Path>): Candidates {
    candidates + map d | d in dirs :: PrefixDirectory
  }

  lemma ExtendedTwice(candidates: Candidates, a: set<Path>, b: set<Path>)
    ensures Extended(Extended(candidates, a), b) == Extended(candidates, a + b)
    ensures Extended(candidates, {}) == candidates
  {}

  lemma StillKnowsBroken(t: Tree, broken: Path -> bool, dir: Path, below: Path, candidates: Candidates, dirs: set<Path>)
    requires KnowsBroken(t, broken, dir, candidates) && dir <= below
    requires forall d | d in dirs :: d in t && t[d].Dir?
    ensures KnowsBroken(t, broken, dir, Extended(candidates, dirs))
    ensures KnowsBroken(t, broken, below, Extended(candidates, dirs))
  {}

  function HollowFrom(t: Tree, broken: Path -> bool, p: Path): (dirs: set<Path>)
    ensures forall d | d in dirs :: d in t && t[d].Dir?
  {
    set d | d in t && p <= d && Hollow(t, broken, d)
  }

  /** The hollow directories at or below the first `i` of the named children. */
  function HollowAmong(t: Tree, broken: Path -> bool, dir: Path, names: seq<string>, i: nat): (dirs: set<Path>)
    requires i <= |names|
    ensures forall d | d in dirs :: d in t && t[d].Dir?
  {
    set d | d in t && Hollow(t, broken, d) && exists k | 0 <= k < i :: dir + [names[k]] <= d
  }

  lemma HollowAmongNone(t: Tree, broken: Path -> bool, dir: Path, names: seq<string>)
    ensures HollowAmong(t, broken, dir, names, 0) == {}
  {}

  lemma HollowAmongNext(t: Tree, broken: Path -> bool, dir: Path, names: seq<string>, i: nat)
    requires i < |names|
    ensures HollowAmong(t, broken, dir, names, i + 1)
         == HollowAmong(t, broken, dir, names, i) + HollowFrom(t, broken, dir + [names[i]])
  {}

  lemma HollowAmongAll(t: Tree, broken: Path -> bool, dir: Path, names: seq<string>)
    requires WellFormed(t) && dir in t && t[dir].Dir? && forall n :: n in names <==> dir + [n] in t
    ensures HollowFrom(t, broken, dir)
         == HollowAmong(t, broken, dir, names, |names|) + if Hollow(t, broken, dir) then {dir} else {}
    ensures Hollow(t, broken, dir) <==> forall k | 0 <= k < |names| :: Removable(t, broken, dir + [names[k]])
  {
    hide Hollow, Removable;
    HollowByNames(t, broken, dir, names);
    forall d | d in HollowFrom(t, broken, dir) && d != dir
      ensures d in HollowAmong(t, broken, dir, names, |names|)
    {
      var n := ChildTowards(t, dir, d);
      assert n in names;
    }
    forall d | d in HollowAmong(t, broken, dir, names, |names|)
      ensures d in HollowFrom(t, broken, dir)
    {
      var k :| 0 <= k < |names| && dir + [names[k]] <= d;
    }
  }

  lemma HollowByNames(t: Tree, broken: Path -> bool, dir: Path, names: seq<string>)
    requires WellFormed(t) && dir in t && t[dir].Dir? && forall n :: n in names <==> dir + [n] in t
    ensures Hollow(t, broken, dir) <==> forall k | 0 <= k < |names| :: Removable(t, broken, dir + [names[k]])
  {
    HollowByChildren(t, broken, dir);
    hide Hollow, Removable, WellFormed;
    forall n | dir + [n] in t
      ensures exists k | 0 <= k < |names| :: names[k] == n
    {
      assert n in names;
    }
    assert forall k | 0 <= k < |names| :: names[k] in names;
  }

  lemma HollowFromNonDir(t: Tree, broken: Path -> bool, p: Path)
    requires WellFormed(t) && p in t && !t[p].Dir?
    ensures HollowFrom(t, broken, p) == {} && !Hollow(t, broken, p)
  {
    BelowNonDir(t, p);
  }

  lemma RootAbove(t: Tree, broken: Path -> bool, root: Path, p: Path)
    requires root < p
    ensures HollowFrom(t, broken, p) - {root} == HollowFrom(t, broken, p)
  {}

  /** Adds the hollow directories at or below `dir`, except the root itself; tells whether `dir` was added. */
  method CollectEmptyDirectories(fs: FileSystem, ghost broken: Path -> bool, root: Path, dir: Path, candidates: Candidates)
    returns (empty: Option<bool>, extended: Candidates)
    requires WellFormed(fs.tree) && dir in fs.tree && fs.tree[dir].Dir? && root <= dir
    requires KnowsBroken(fs.tree, broken, dir, candidates)
    ensures empty.Some? ==>
              && extended == Extended(candidates, HollowFrom(fs.tree, broken, dir) - {root})
              && (empty.value <==> dir != root && Hollow(fs.tree, broken, dir))
    ensures fs.reliable && (forall p | p in fs.tree :: |p| <= MAX_DEPTH) ==> empty.Some?
    decreases if |dir| <= MAX_DEPTH then MAX_DEPTH + 1 - |dir| else 0
  {
    hide Hollow, HollowFrom, HollowAmong, WellFormed, Extended, KnowsBroken;
    var names := fs.ReadDir(dir);
    extended := candidates;
    if names.None? {
      return None, extended;
    }
    var removable := true;
    ghost var dirs: set<Path> := {};
    ExtendedTwice(candidates, {}, {});
    HollowAmongNone(fs.tree, broken, dir, names.value);
    for i := 0 to |names.value|
      invariant dirs == HollowAmong(fs.tree, broken, dir, names.value, i)
      invariant extended == Extended(candidates, dirs)
      invariant removable <==> forall k | 0 <= k < i :: Removable(fs.tree, broken, dir + [names.value[k]])
    {
      var path := dir + [names.value[i]];
      assert names.value[i] in names.value;
      HollowAmongNext(fs.tree, broken, dir, names.value, i);
      StillKnowsBroken(fs.tree, broken, dir, path, candidates, dirs);
      ghost var here := HollowFrom(fs.tree, broken, path);
      var one: bool;
      if fs.tree[path].Link? {
        HollowFromNonDir(fs.tree, broken, path);
        LinkKnown(fs.tree, broken, dir, extended, path);
        one := path in extended && extended[path].PrefixSymlink?;
      } else if fs.tree[path].Dir? {
        var below;
        below, extended := CollectEmptyDirectories(fs, broken, root, path, extended);
        if below.None? {
          return None, extended;
        }
        one := below.value;
        RootAbove(fs.tree, broken, root, path);
      } else {
        HollowFromNonDir(fs.tree, broken, path);
        one := false;
      }
      ExtendedTwice(candidates, dirs, here);
      assert dirs + {} == dirs;
      dirs := dirs + here;
      removable := removable && one;
    }
    HollowAmongAll(fs.tree, broken, dir, names.value);
    ghost var whole := HollowFrom(fs.tree, broken, dir);
    if removable && dir != root {
      extended := Extended(extended, {dir});
      ExtendedTwice(candidates, dirs, {dir});
      assert whole - {root} == dirs + {dir} by {
        RootBelow(fs.tree, broken, root, dir, names.value);
      }
      empty := Some(true);
    } else {
      assert whole - {root} == dirs by {
        RootBelow(fs.tree, broken, root, dir, names.value);
      }
      empty := Some(false);
    }
  }

  lemma RootBelow(t: Tree, broken: Path -> bool, root: Path, dir: Path, names: seq<string>)
    requires root <= dir
    ensures root !in HollowAmong(t, broken, dir, names, |names|)
  {}

  lemma LinkKnown(t: Tree, broken: Path -> bool, dir: Path, candidates: Candidates, p: Path)
    requires KnowsBroken(t, broken, dir, candidates) && p in t && dir < p && t[p].Link?
    ensures (p in candidates && candidates[p].PrefixSymlink?) <==> broken(p)
  {}

  function IsRealDirectory(t: Tree, p: Path): bool {
    p in t && t[p].Dir?
  }

  function LinksBelow(t: Tree, broken: Path -> bool, roots: seq<Path>): set<Path> {
    set p | p in t && BelowSome(roots, p) && IsBrokenLink(t, broken, p)
  }

  function DirsBelow(t: Tree, broken: Path -> bool, roots: seq<Path>): (dirs: set<Path>)
    ensures forall d | d in dirs :: d in t && t[d].Dir?
  {
    set p | p in t && BelowSome(roots, p) && Hollow(t, broken, p)
  }

  function AsLinks(links: set<Path>): Candidates {
    map p | p in links :: PrefixSymlink
  }

  lemma OneMoreRoot(t: Tree, broken: Path -> bool, roots: seq<Path>, i: nat)
    requires WellFormed(t) && i < |roots|
    ensures LinksBelow(t, broken, roots[..i + 1])
         == LinksBelow(t, broken, roots[..i]) + if IsRealDirectory(t, roots[i]) then BrokenBelow(t, broken, roots[i]) else {}
    ensures DirsBelow(t, broken, roots[..i + 1])
         == DirsBelow(t, broken, roots[..i]) + if IsRealDirectory(t, roots[i]) then HollowFrom(t, broken, roots[i]) - {roots[i]} else {}
  {
    hide Hollow, IsBrokenLink, WellFormed;
    forall p | p in t
      ensures BelowSome(roots[..i + 1], p) <==> BelowSome(roots[..i], p) || roots[i] < p
      ensures roots[i] < p ==> IsRealDirectory(t, roots[i])
      ensures roots[i] < p <==> roots[i] <= p && p != roots[i]
    {
      BelowOneMore(roots, i, p);
      if roots[i] < p {
        AncestorIn(t, p, roots[i]);
      }
    }
  }

  lemma BelowOneMore(roots: seq<Path>, i: nat, p: Path)
    requires i < |roots|
    ensures BelowSome(roots[..i + 1], p) <==> BelowSome(roots[..i], p) || roots[i] < p
  {}

  /** Once the broken links below all roots are candidates, the links below each root are known. */
  lemma AllRootsKnown(t: Tree, broken: Path -> bool, roots: seq<Path>, i: nat)
    requires i < |roots|
    ensures KnowsBroken(t, broken, roots[i], AsLinks(LinksBelow(t, broken, roots)))
  {}

  /** Plans the pruning: the broken links below the roots, then the directories that hold nothing else. */
  method CollectPrefixCandidates(fs: FileSystem, broken: Path -> bool, roots: seq<Path>) returns (plan: Option<Candidates>)
    requires WellFormed(fs.tree)
    ensures plan.Some? ==>
              plan.value == Extended(AsLinks(LinksBelow(fs.tree, broken, roots)), DirsBelow(fs.tree, broken, roots))
    ensures fs.reliable && (forall p | p in fs.tree :: |p| <= MAX_DEPTH) ==> plan.Some?
  {
    hide WellFormed, LinksBelow, DirsBelow, BrokenBelow, HollowFrom, Extended, KnowsBroken, AsLinks;
    var links: set<Path> := {};
    NoRoots(fs.tree, broken, roots);
    for i := 0 to |roots|
      invariant links == LinksBelow(fs.tree, broken, roots[..i])
    {
      OneMoreRoot(fs.tree, broken, roots, i);
      if IsRealDirectory(fs.tree, roots[i]) {
        var found := CollectBrokenSymlinks(fs, broken, roots[i]);
        if found.None? {
          return None;
        }
        links := links + found.value;
      }
    }
    assert roots[..|roots|] == roots;
    var candidates := AsLinks(links);
    ExtendedTwice(candidates, {}, {});
    ghost var dirs: set<Path> := {};
    for i := 0 to |roots|
      invariant dirs == DirsBelow(fs.tree, broken, roots[..i])
      invariant candidates == Extended(AsLinks(links), dirs)
    {
      OneMoreRoot(fs.tree, broken, roots, i);
      if IsRealDirectory(fs.tree, roots[i]) {
        AllRootsKnown(fs.tree, broken, roots, i);
        StillKnowsBroken(fs.tree, broken, roots[i], roots[i], AsLinks(links), dirs);
        var empty, extended := CollectEmptyDirectories(fs, broken, roots[i], roots[i], candidates);
        if empty.None? {
          return None;
        }
        ghost var more := HollowFrom(fs.tree, broken, roots[i]) - {roots[i]};
        ExtendedTwice(AsLinks(links), dirs, more);
        dirs := dirs + more;
        candidates := extended;
      }
    }
    return Some(candidates);
  }

  lemma NoRoots(t: Tree, broken: Path -> bool, roots: seq<Path>)
    ensures LinksBelow(t, broken, roots[..0]) == {} && DirsBelow(t, broken, roots[..0]) == {}
  {}

  // ----- applying the plan -----

  lemma LeftBut(t: Tree, gone: set<Path>, p: Path)
    ensures (t - gone) - {p} == t - (gone + {p})
  {}

  /** Removes the link candidates, in any order. */
  method ApplyFileCandidates(fs: FileSystem, prefix: Path, links: set<Path>) returns (failed: set<Path>)
    requires WellFormed(fs.tree) && forall p | p in links :: prefix < p && p in fs.tree && fs.tree[p].Link?
    modifies fs`tree
    ensures WellFormed(fs.tree) && failed <= links && fs.tree == old(fs.tree) - (links - failed)
    ensures fs.reliable ==> failed == {}
  {
    failed := {};
    var pending := links;
    ghost var gone: set<Path> := {};
    assert fs.tree - gone == fs.tree;
    while pending != {}
      invariant pending <= links && failed <= links && gone == links - pending - failed && failed !! pending
      invariant WellFormed(fs.tree) && fs.tree == old(fs.tree) - gone
      invariant fs.reliable ==> failed == {}
    {
      hide WellFormed;
      var p :| p in pending;
      pending := pending - {p};
      var ok := prefix < p;
      if ok {
        if p in fs.tree {
          LinkRemoved(fs.tree, p);
          LeftBut(old(fs.tree), gone, p);
          ok := fs.RemoveFile(p);
        }
      }
      if ok {
        gone := gone + {p};
      } else {
        failed := failed + {p};
      }
    }
  }

  predicate IsDeepest(d: Path, dirs: set<Path>) {
    d in dirs && forall other | other in dirs :: |other| <= |d|
  }

  lemma {:induction false} DeepestExists(dirs: set<Path>)
    requires dirs != {}
    ensures exists d :: IsDeepest(d, dirs)
    decreases |dirs|
  {
    var d :| d in dirs;
    var rest := dirs - {d};
    assert forall other | other in dirs :: other == d || other in rest;
    if rest == {} {
      assert IsDeepest(d, dirs);
    } else {
      DeepestExists(rest);
      var e :| IsDeepest(e, rest);
      assert IsDeepest(if |d| > |e| then d else e, dirs);
    }
  }

  /** Everything in a directory that is to go is itself a directory that is to go. */
  ghost predicate OnlyNest(t: Tree, dirs: set<Path>) {
    forall d, c | d in dirs && c in t && c != [] && Parent(c) == d :: c in dirs
  }

  /** When the deeper ones are gone, the deepest directory left is empty. */
  lemma DeepestIsEmpty(t: Tree, dirs: set<Path>, gone: set<Path>, pending: set<Path>, d: Path)
    requires OnlyNest(t, dirs) && IsDeepest(d, pending) && pending <= dirs && dirs - pending <= gone
    ensures !HasChildren(t - gone, d)
  {}

  /** Removes the directory candidates, deepest first; without faults of the system each is empty when its turn
      comes. */
  method ApplyDirectoryCandidates(fs: FileSystem, prefix: Path, dirs: set<Path>) returns (failed: set<Path>)
    requires WellFormed(fs.tree) && forall d | d in dirs :: prefix < d && d in fs.tree && fs.tree[d].Dir?
    modifies fs`tree
    ensures WellFormed(fs.tree) && failed <= dirs && fs.tree == old(fs.tree) - (dirs - failed)
    ensures fs.reliable && OnlyNest(old(fs.tree), dirs) ==> failed == {}
  {
    failed := {};
    var pending := dirs;
    ghost var gone: set<Path> := {};
    assert fs.tree - gone == fs.tree;
    while pending != {}
      invariant pending <= dirs && failed <= dirs && gone == dirs - pending - failed && failed !! pending
      invariant WellFormed(fs.tree) && fs.tree == old(fs.tree) - gone
      invariant fs.reliable && OnlyNest(old(fs.tree), dirs) ==> failed == {}
    {
      hide WellFormed, OnlyNest, HasChildren;
      DeepestExists(pending);
      var d :| IsDeepest(d, pending);
      if failed == {} && OnlyNest(old(fs.tree), dirs) {
        DeepestIsEmpty(old(fs.tree), dirs, gone, pending, d);
      }
      pending := pending - {d};
      var ok := prefix < d;
      if ok {
        if d in fs.tree {
          LeftBut(old(fs.tree), gone, d);
          ok := TakeDirectory(fs, d);
        }
      }
      if ok {
        gone := gone + {d};
      } else {
        failed := failed + {d};
      }
    }
  }

  method TakeDirectory(fs: FileSystem, d: Path) returns (ok: bool)
    requires WellFormed(fs.tree) && d != [] && d in fs.tree && fs.tree[d].Dir?
    modifies fs`tree
    ensures WellFormed(fs.tree) && fs.tree == if ok then old(fs.tree) - {d} else old(fs.tree)
    ensures fs.reliable ==> ok == !HasChildren(old(fs.tree), d)
  {
    if !HasChildren(fs.tree, d) {
      EmptyRemoved(fs.tree, d);
    }
    ok := fs.RemoveDir(d);
  }

  /** `cleanup --prune-prefix`: a plan that cannot be made changes nothing; else all that was planned is gone but
      what is reported as failed. Without faults nothing is, and an entry is gone exactly if it lay strictly below a
      link root and nothing useful lay at or below it. */
  method PrunePrefix(fs: FileSystem, prefix: Path, route: Route) returns (failed: Option<set<Path>>)
    requires WellFormed(fs.tree)
    modifies fs`tree
    ensures WellFormed(fs.tree)
    ensures failed.None? ==> fs.tree == old(fs.tree)
    ensures failed.Some? ==>
              var doomed := Doomed(old(fs.tree), BrokenIn(old(fs.tree), route), LinkRoots(prefix));
              failed.value <= doomed && fs.tree == old(fs.tree) - (doomed - failed.value)
    ensures fs.reliable && (forall p | p in old(fs.tree) :: |p| <= MAX_DEPTH) ==>
              failed == Some({}) && fs.tree == Pruned(old(fs.tree), BrokenIn(old(fs.tree), route), LinkRoots(prefix))
    ensures failed == Some({}) ==>
              var broken := BrokenIn(old(fs.tree), route);
              forall p | p in old(fs.tree) ::
                p !in fs.tree <==> BelowSome(LinkRoots(prefix), p) && !HoldsUseful(old(fs.tree), broken, p)
    ensures failed == Some({}) ==>
              forall p | p in old(fs.tree) ::
                p !in fs.tree <==> InLinkDirectory(prefix, p) && Worthless(old(fs.tree), route, p)
    ensures forall p | p in fs.tree :: p in old(fs.tree) && fs.tree[p] == old(fs.tree)[p]
  {
    hide InLinkDirectory, Worthless;
    hide WellFormed, LinksBelow, DirsBelow, Doomed, OnlyNest, LinkRoots, BrokenIn, HoldsUseful, BelowSome;
    var roots, broken := LinkRoots(prefix), BrokenIn(fs.tree, route);
    var plan := CollectPrefixCandidates(fs, broken, roots);
    if plan.None? {
      return None;
    }
    ghost var before := fs.tree;
    PlanIsDoomed(before, broken, prefix);
    var links := set p | p in plan.value && plan.value[p].PrefixSymlink?;
    var dirs := set p | p in plan.value && plan.value[p].PrefixDirectory?;
    assert links == LinksBelow(before, broken, roots) && dirs == DirsBelow(before, broken, roots);
    var stuck := ApplyFileCandidates(fs, prefix, links);
    DirectoriesNest(before, broken, roots, stuck, fs.tree);
    var stuck' := ApplyDirectoryCandidates(fs, prefix, dirs);
    LeftTwice(before, links - stuck, dirs - stuck');
    assert links - stuck + (dirs - stuck') == Doomed(before, broken, roots) - (stuck + stuck');
    failed := Some(stuck + stuck');
    assert failed.value == {} ==> Doomed(before, broken, roots) - failed.value == Doomed(before, broken, roots);
    forall p | p in before && fs.tree == Pruned(before, broken, roots)
      ensures p !in fs.tree <==> BelowSome(roots, p) && !HoldsUseful(before, broken, p)
    {
      GoneExactly(before, broken, roots, p);
    }
    forall p
      ensures BelowSome(roots, p) && !HoldsUseful(before, broken, p) <==> InLinkDirectory(prefix, p) && Worthless(before, route, p)
    {
      WorthlessExactly(before, route, prefix, p);
    }
  }

  lemma LeftTwice(t: Tree, a: set<Path>, b: set<Path>)
    ensures (t - a) - b == t - (a + b)
  {}

  lemma PlanIsDoomed(t: Tree, broken: Path -> bool, prefix: Path)
    ensures var roots := LinkRoots(prefix);
            && LinksBelow(t, broken, roots) + DirsBelow(t, broken, roots) == Doomed(t, broken, roots)
            && LinksBelow(t, broken, roots) !! DirsBelow(t, broken, roots)
            && (forall p | p in LinksBelow(t, broken, roots) :: prefix < p && p in t && t[p].Link?)
            && forall p | p in DirsBelow(t, broken, roots) :: prefix < p && p in t && t[p].Dir?
  {}

  /** With the broken links gone, hollow directories hold only hollow directories. */
  lemma DirectoriesNest(t: Tree, broken: Path -> bool, roots: seq<Path>, stuck: set<Path>, now: Tree)
    requires WellFormed(t) && now == t - (LinksBelow(t, broken, roots) - stuck)
    ensures stuck == {} ==> OnlyNest(now, DirsBelow(t, broken, roots))
    ensures forall d | d in DirsBelow(t, broken, roots) :: d in now && now[d].Dir?
  {}
}
