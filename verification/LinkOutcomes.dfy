/** What the steps that make many links or move many entries come to. */
module LinkOutcomes {
  import opened Text
  import opened FileTree
  import opened Globs
  import opened TreeOutcomes
  import opened CopyOutcomes
  import P = PlainSteps

  // ----- links to paths -----

  /** A path as text. */
  function TextOf(p: Path): string {
    if p == [] then "" else Join([""] + p, '/')
  }

  lemma {:induction false} JoinedLast(parts: seq<string>, last: string)
    requires parts != []
    ensures Join(parts + [last], '/') == Join(parts, '/') + "/" + last
  {
    if |parts| > 1 {
      JoinedLast(parts[1..], last);
      assert (parts + [last])[1..] == parts[1..] + [last];
    } else {
      assert (parts + [last])[1..] == [last];
    }
  }

  lemma {:induction false} PathTextIs(p: Path)
    ensures P.PathText(p) == TextOf(p)
    decreases |p|
  {
    if |p| > 1 {
      PathTextIs(Parent(p));
      JoinedLast([""] + Parent(p), Base(p));
      assert [""] + Parent(p) + [Base(p)] == [""] + p;
    } else if |p| == 1 {
      assert ([""] + p)[1..] == p;
      assert Parent(p) == [] && P.PathText([]) == "";
      assert P.PathText(p) == "/" + p[0];
      assert Join([""] + p, '/') == "" + ['/'] + Join(p, '/');
    }
  }

  /** Where the link for a child goes. */
  ghost function Slot(target: Path, prefix: string, name: string, suffix: string): Path {
    target + [prefix + name + suffix]
  }

  /** The links called `prefix` + name + `suffix` in `target` lead to the children of `source`. */
  ghost predicate LinksMade(t: Tree, t': Tree, source: Path, target: Path, prefix: string, suffix: string, names: seq<string>) {
    && (forall q | q in t :: q in t' && t'[q] == t[q])
    && (forall n | n in names :: Slot(target, prefix, n, suffix) in t')
    && (forall q | q in t' && q !in t ::
          exists n | n in names :: q == Slot(target, prefix, n, suffix) && t'[q] == Link(TextOf(source + [n])))
  }

  ghost predicate NamesFree(t: Tree, target: Path, prefix: string, suffix: string, names: seq<string>) {
    forall n | n in names :: Slot(target, prefix, n, suffix) !in t
  }

  lemma NewLink(t: Tree, text: string, target: Path, name: string, force: bool)
    requires WellFormed(t) && target in t && t[target].Dir?
    ensures P.PutLink(t, text, target + [name], force).Some? <==> (target + [name] in t ==> force)
    ensures P.PutLink(t, text, target + [name], force).Some? ==>
              && WellFormed(P.PutLink(t, text, target + [name], force).value)
              && P.PutLink(t, text, target + [name], force).value == Without(t, target + [name])[target + [name] := Link(text)]
  {
    var d := target + [name];
    LinkPut(t, text, d, force);
    assert Parent(d) == target;
    forall q | q in t && q < d
      ensures t[q].Dir?
    {
      assert q <= target;
      AncestorIn(t, target, q);
    }
  }

  lemma AffixedDiffer(target: Path, prefix: string, suffix: string, n: string, m: string)
    requires Slot(target, prefix, n, suffix) == Slot(target, prefix, m, suffix)
    ensures n == m
  {
    assert (Slot(target, prefix, n, suffix))[|target|] == prefix + n + suffix;
    assert (Slot(target, prefix, m, suffix))[|target|] == prefix + m + suffix;
    assert |n| == |m| && (prefix + n + suffix)[|prefix|..|prefix| + |n|] == n;
    assert (prefix + m + suffix)[|prefix|..|prefix| + |m|] == m;
  }

  ghost predicate LinksAre(t: Tree, source: Path, target: Path, prefix: string, suffix: string, names: seq<string>, v: Option<Tree>) {
    && (v.Some? <==> NamesFree(t, target, prefix, suffix, names))
    && (v.Some? ==> LinksMade(t, v.value, source, target, prefix, suffix, names))
  }

  lemma EachLinkedStep(t: Tree, source: Path, target: Path, prefix: string, suffix: string, names: seq<string>)
    requires WellFormed(t) && target in t && t[target].Dir? && names != []
    ensures var d := Slot(target, prefix, names[0], suffix);
      P.LinkEach(t, source, target, prefix, suffix, names) ==
      if d in t then None
      else P.LinkEach(Without(t, d)[d := Link(TextOf(source + [names[0]]))], source, target, prefix, suffix, names[1..])
    ensures var d := Slot(target, prefix, names[0], suffix);
      d !in t ==> WellFormed(Without(t, d)[d := Link(TextOf(source + [names[0]]))]) && !(d <= target)
  {
    hide TextOf, P.PathText, P.PutLink;
    PathTextIs(source + [names[0]]);
    NewLink(t, TextOf(source + [names[0]]), target, prefix + names[0] + suffix, false);
  }

  lemma {:induction false} EachLinked(t: Tree, source: Path, target: Path, prefix: string, suffix: string, names: seq<string>)
    requires WellFormed(t) && target in t && t[target].Dir?
    requires forall i, j | 0 <= i < j < |names| :: names[i] != names[j]
    ensures LinksAre(t, source, target, prefix, suffix, names, P.LinkEach(t, source, target, prefix, suffix, names))
    decreases |names|
  {
    if names == [] {
      return;
    }
    hide WellFormed, LinksAre, LinksMade, NamesFree, Slot, TextOf, P.LinkEach;
    var d, n := Slot(target, prefix, names[0], suffix), Link(TextOf(source + [names[0]]));
    EachLinkedStep(t, source, target, prefix, suffix, names);
    FirstNameFree(t, source, target, prefix, suffix, names, n);
    if d !in t {
      EachLinked(t[d := n], source, target, prefix, suffix, names[1..]);
      LinksJoin(t, source, target, prefix, suffix, names, P.LinkEach(t[d := n], source, target, prefix, suffix, names[1..]));
    }
  }

  lemma LinksJoin(t: Tree, source: Path, target: Path, prefix: string, suffix: string, names: seq<string>, v: Option<Tree>)
    requires names != [] && Slot(target, prefix, names[0], suffix) !in t
    requires var u := t[Slot(target, prefix, names[0], suffix) := Link(TextOf(source + [names[0]]))];
      && LinksAre(u, source, target, prefix, suffix, names[1..], v)
      && (NamesFree(u, target, prefix, suffix, names[1..]) <==> NamesFree(t, target, prefix, suffix, names))
    ensures LinksAre(t, source, target, prefix, suffix, names, v)
  {
    hide NamesFree, LinksMade, TextOf;
    if v.Some? {
      FirstLinkMade(t, t[Slot(target, prefix, names[0], suffix) := Link(TextOf(source + [names[0]]))], v.value,
                    source, target, prefix, suffix, names);
    }
  }

  lemma FirstNameFree(t: Tree, source: Path, target: Path, prefix: string, suffix: string, names: seq<string>, n: Node)
    requires WellFormed(t) && names != [] && forall i, j | 0 <= i < j < |names| :: names[i] != names[j]
    ensures var d := Slot(target, prefix, names[0], suffix);
      if d in t then !NamesFree(t, target, prefix, suffix, names) && LinksAre(t, source, target, prefix, suffix, names, None)
      else
        && Without(t, d) == t
        && (NamesFree(t[d := n], target, prefix, suffix, names[1..]) <==> NamesFree(t, target, prefix, suffix, names))
  {
    var d := Slot(target, prefix, names[0], suffix);
    assert names[0] in names && forall m | m in names :: m == names[0] || m in names[1..];
    if d !in t {
      AbsentBelow(t, d);
      forall m | m in names[1..]
        ensures Slot(target, prefix, m, suffix) != d
      {
        if Slot(target, prefix, m, suffix) == d {
          AffixedDiffer(target, prefix, suffix, names[0], m);
        }
      }
    }
  }

  lemma FirstLinkMade(t: Tree, u: Tree, v: Tree, source: Path, target: Path, prefix: string, suffix: string, names: seq<string>)
    requires names != [] && LinksMade(u, v, source, target, prefix, suffix, names[1..])
    requires var d := Slot(target, prefix, names[0], suffix); d !in t && u == t[d := Link(TextOf(source + [names[0]]))]
    ensures LinksMade(t, v, source, target, prefix, suffix, names)
  {
    assert names[0] in names && forall m | m in names :: m == names[0] || m in names[1..];
  }

  // ----- links into a directory -----

  /** The last of the sources that have the name. */
  ghost function LastNamed(sources: seq<Path>, name: string): Option<Path> {
    if sources == [] then None
    else if LastNamed(sources[1..], name).Some? then LastNamed(sources[1..], name)
    else if sources[0] != [] && sources[0][|sources[0]| - 1] == name then Some(sources[0])
    else None
  }

  ghost predicate Taken(sources: seq<Path>, target: Path, q: Path) {
    target < q && LastNamed(sources, q[|target|]).Some?
  }

  /** Each name in the directory leads to the last source of that name; nothing else has changed. */
  ghost predicate LinkedInto(t: Tree, t': Tree, sources: seq<Path>, target: Path) {
    && (forall q | Taken(sources, target, q) :: q in t' <==> |q| == |target| + 1)
    && (forall q | Taken(sources, target, q) && q in t' :: t'[q] == Link(TextOf(LastNamed(sources, q[|target|]).value)))
    && (forall q | !Taken(sources, target, q) :: q in t' <==> q in t)
    && (forall q | !Taken(sources, target, q) && q in t' :: t'[q] == t[q])
  }

  /** No two sources have the same name. */
  ghost predicate NamesDiffer(sources: seq<Path>) {
    forall i | 0 <= i < |sources| && sources[i] != [] :: LastNamed(sources[i + 1..], Base(sources[i])).None?
  }

  ghost predicate NoneTaken(t: Tree, sources: seq<Path>, target: Path) {
    forall s | s in sources && s != [] :: target + [Base(s)] !in t
  }

  /** Without `force` the names must be free, and no two the same. */
  ghost predicate MayLinkInto(t: Tree, sources: seq<Path>, target: Path, force: bool) {
    [] !in sources && (force || (NoneTaken(t, sources, target) && NamesDiffer(sources)))
  }

  ghost predicate IntoIs(t: Tree, sources: seq<Path>, target: Path, force: bool, v: Option<Tree>) {
    && (v.Some? <==> MayLinkInto(t, sources, target, force))
    && (v.Some? ==> LinkedInto(t, v.value, sources, target))
  }

  lemma {:induction false} IntoLinked(t: Tree, sources: seq<Path>, target: Path, force: bool)
    requires WellFormed(t) && target in t && t[target].Dir?
    ensures IntoIs(t, sources, target, force, P.LinkInto(t, sources, target, force))
    decreases |sources|
  {
    if sources == [] {
      assert forall q :: !Taken(sources, target, q);
    } else if sources[0] == [] {
      assert sources[0] in sources;
    } else {
      hide WellFormed, IntoIs, LinkedInto, MayLinkInto, TextOf, P.PathText, P.PutLink;
      var s, rest := sources[0], sources[1..];
      var d := target + [Base(s)];
      PathTextIs(s);
      NewLink(t, TextOf(s), target, Base(s), force);
      IntoFirst(t, sources, target, force, Link(TextOf(s)));
      if d in t ==> force {
        var u := Without(t, d)[d := Link(TextOf(s))];
        assert !(d <= target);
        IntoLinked(u, rest, target, force);
        IntoJoin(t, u, sources, target, force, P.LinkInto(u, rest, target, force));
      }
    }
  }

  lemma IntoJoin(t: Tree, u: Tree, sources: seq<Path>, target: Path, force: bool, v: Option<Tree>)
    requires sources != [] && sources[0] != []
    requires var d := target + [Base(sources[0])]; u == Without(t, d)[d := Link(TextOf(sources[0]))]
    requires MayLinkInto(u, sources[1..], target, force) <==> MayLinkInto(t, sources, target, force)
    requires IntoIs(u, sources[1..], target, force, v)
    ensures IntoIs(t, sources, target, force, v)
  {
    hide LinkedInto, MayLinkInto, TextOf;
    if v.Some? {
      LinkedIntoFirst(t, u, v.value, sources, target);
    }
  }

  lemma {:induction false} LastNamedIs(sources: seq<Path>, name: string)
    ensures LastNamed(sources, name).Some? <==> exists s | s in sources :: s != [] && Base(s) == name
    ensures LastNamed(sources, name).Some? ==> var s := LastNamed(sources, name).value; s in sources && s != [] && Base(s) == name
  {
    if sources != [] {
      LastNamedIs(sources[1..], name);
      assert sources[0] in sources && forall x | x in sources :: x == sources[0] || x in sources[1..];
    }
  }

  lemma DifferFirst(sources: seq<Path>)
    requires sources != [] && sources[0] != []
    ensures NamesDiffer(sources) <==> LastNamed(sources[1..], Base(sources[0])).None? && NamesDiffer(sources[1..])
  {
    hide LastNamed;
    var rest := sources[1..];
    assert forall i | 0 <= i < |rest| :: rest[i] == sources[i + 1] && rest[i + 1..] == sources[i + 2..];
    if LastNamed(rest, Base(sources[0])).None? && NamesDiffer(rest) {
      forall i | 0 <= i < |sources| && sources[i] != []
        ensures LastNamed(sources[i + 1..], Base(sources[i])).None?
      {
        assert i > 0 ==> sources[i] == rest[i - 1] && sources[i + 1..] == rest[i..];
      }
    }
  }

  lemma IntoFirst(t: Tree, sources: seq<Path>, target: Path, force: bool, n: Node)
    requires sources != [] && sources[0] != []
    ensures var d := target + [Base(sources[0])];
      if d in t && !force then !IntoIs(t, sources, target, force, Some(t)) && IntoIs(t, sources, target, force, None)
      else MayLinkInto(Without(t, d)[d := n], sources[1..], target, force) <==> MayLinkInto(t, sources, target, force)
  {
    hide LastNamed, NamesDiffer;
    var s, rest, d := sources[0], sources[1..], target + [Base(sources[0])];
    assert s in sources && forall x | x in sources :: x == s || x in rest;
    DifferFirst(sources);
    if d !in t {
      SlotTaken(t, d, n, rest, target, Base(s));
    }
  }

  lemma SlotTaken(t: Tree, d: Path, n: Node, rest: seq<Path>, target: Path, name: string)
    requires d == target + [name] && d !in t
    ensures NoneTaken(Without(t, d)[d := n], rest, target) <==> NoneTaken(t, rest, target) && LastNamed(rest, name).None?
  {
    hide LastNamed;
    LastNamedIs(rest, name);
    forall x | x in rest && x != []
      ensures Base(x) == name ==> target + [Base(x)] == d
      ensures Base(x) != name ==> !(d <= target + [Base(x)])
    {
      OneName(target, Base(x), name, target + [Base(x)]);
    }
  }

  lemma LinkedIntoFirst(t: Tree, u: Tree, v: Tree, sources: seq<Path>, target: Path)
    requires sources != [] && sources[0] != []
    requires var d := target + [Base(sources[0])]; u == Without(t, d)[d := Link(TextOf(sources[0]))]
    requires LinkedInto(u, v, sources[1..], target)
    ensures LinkedInto(t, v, sources, target)
  {
    hide TextOf, LinkedInto;
    forall q
      ensures if Taken(sources, target, q)
              then (q in v <==> |q| == |target| + 1) && (q in v ==> v[q] == Link(TextOf(LastNamed(sources, q[|target|]).value)))
              else (q in v <==> q in t) && (q in v ==> v[q] == t[q])
    {
      LinkedIntoAt(t, u, v, sources, target, q);
    }
    LinkedIntoAll(t, v, sources, target);
  }

  lemma LinkedIntoAll(t: Tree, v: Tree, sources: seq<Path>, target: Path)
    requires forall q ::
      if Taken(sources, target, q)
      then (q in v <==> |q| == |target| + 1) && (q in v ==> v[q] == Link(TextOf(LastNamed(sources, q[|target|]).value)))
      else (q in v <==> q in t) && (q in v ==> v[q] == t[q])
    ensures LinkedInto(t, v, sources, target)
  {
    hide TextOf;
  }

  lemma LinkedIntoAt(t: Tree, u: Tree, v: Tree, sources: seq<Path>, target: Path, q: Path)
    requires sources != [] && sources[0] != []
    requires var d := target + [Base(sources[0])]; u == Without(t, d)[d := Link(TextOf(sources[0]))]
    requires LinkedInto(u, v, sources[1..], target)
    ensures if Taken(sources, target, q)
            then (q in v <==> |q| == |target| + 1) && (q in v ==> v[q] == Link(TextOf(LastNamed(sources, q[|target|]).value)))
            else (q in v <==> q in t) && (q in v ==> v[q] == t[q])
  {
    hide TextOf;
    var s, rest, d := sources[0], sources[1..], target + [Base(sources[0])];
    if target < q {
      assert d <= q <==> q[|target|] == Base(s);
      assert d <= q && |q| == |target| + 1 ==> q == d;
    }
  }

  // ----- moving the children of a directory -----

  /** `q` lies at or below a child of `source`, other than `target`, that one of the names calls. */
  ghost predicate Leaves(source: Path, target: Path, names: seq<string>, q: Path) {
    source < q && q[|source|] in names && source + [q[|source|]] != target
  }

  /** `q` lies where such a child goes. */
  ghost predicate Arrives(source: Path, target: Path, names: seq<string>, q: Path) {
    target < q && q[|target|] in names && source + [q[|target|]] != target
  }

  ghost predicate ShiftedAt(t: Tree, t': Tree, source: Path, target: Path, names: seq<string>, q: Path) {
    if Arrives(source, target, names, q) then
      var o := source + q[|target|..];
      (q in t' <==> o in t) && (q in t' ==> t'[q] == t[o])
    else if Leaves(source, target, names, q) then q !in t'
    else (q in t' <==> q in t) && (q in t' ==> t'[q] == t[q])
  }

  ghost predicate MayShift(t: Tree, source: Path, target: Path, names: seq<string>) {
    forall n | n in names && source + [n] != target :: target + [n] !in t && !(source + [n] <= target)
  }

  ghost predicate ShiftIs(t: Tree, source: Path, target: Path, names: seq<string>, v: Option<Tree>) {
    && (v.Some? <==> MayShift(t, source, target, names))
    && (v.Some? ==> forall q :: ShiftedAt(t, v.value, source, target, names, q))
  }

  ghost predicate ShiftReady(t: Tree, source: Path, target: Path, names: seq<string>) {
    && WellFormed(t) && target in t && t[target].Dir?
    && (forall n | n in names :: source + [n] in t)
    && forall i, j | 0 <= i < j < |names| :: names[i] != names[j]
  }

  lemma MoveAllStep(t: Tree, source: Path, target: Path, names: seq<string>)
    requires names != []
    ensures var c, d := source + [names[0]], target + [names[0]];
      P.MoveAll(t, source, target, names) ==
      if c == target then P.MoveAll(t, source, target, names[1..])
      else if d in t || !CanRename(t, c, d) then None
      else P.MoveAll(Renamed(t, c, d), source, target, names[1..])
  {}

  lemma {:induction false} ChildrenShifted(t: Tree, source: Path, target: Path, names: seq<string>)
    requires ShiftReady(t, source, target, names)
    ensures ShiftIs(t, source, target, names, P.MoveAll(t, source, target, names))
    decreases |names|
  {
    if names == [] {
      return;
    }
    hide ShiftIs, MayShift, ShiftReady, CanRename, Renamed, P.MoveAll;
    var c, d := source + [names[0]], target + [names[0]];
    MoveAllStep(t, source, target, names);
    if c == target {
      SkipTarget(t, source, target, names);
      ChildrenShifted(t, source, target, names[1..]);
      ShiftSkips(t, source, target, names, P.MoveAll(t, source, target, names[1..]));
    } else {
      FirstShift(t, source, target, names);
      if d !in t && CanRename(t, c, d) {
        var u := Renamed(t, c, d);
        ChildrenShifted(u, source, target, names[1..]);
        ShiftJoins(t, u, source, target, names, P.MoveAll(u, source, target, names[1..]));
      }
    }
  }

  lemma SkipTarget(t: Tree, source: Path, target: Path, names: seq<string>)
    requires names != [] && ShiftReady(t, source, target, names)
    ensures ShiftReady(t, source, target, names[1..])
  {}

  lemma ShiftSkips(t: Tree, source: Path, target: Path, names: seq<string>, v: Option<Tree>)
    requires names != [] && source + [names[0]] == target && ShiftIs(t, source, target, names[1..], v)
    ensures ShiftIs(t, source, target, names, v)
  {
    assert forall m | m in names :: m == names[0] || m in names[1..];
    if v.Some? {
      forall q
        ensures ShiftedAt(t, v.value, source, target, names, q)
      {
        assert ShiftedAt(t, v.value, source, target, names[1..], q);
      }
    }
  }

  lemma FirstShift(t: Tree, source: Path, target: Path, names: seq<string>)
    requires names != [] && ShiftReady(t, source, target, names) && source + [names[0]] != target
    ensures var c, d := source + [names[0]], target + [names[0]];
      if d in t || !CanRename(t, c, d) then ShiftIs(t, source, target, names, None)
      else
        && !(c <= target) && d !in t && ShiftReady(Renamed(t, c, d), source, target, names[1..])
        && (MayShift(Renamed(t, c, d), source, target, names[1..]) <==> MayShift(t, source, target, names))
  {
    var c, d := source + [names[0]], target + [names[0]];
    assert names[0] in names && forall m | m in names :: m == names[0] || m in names[1..];
    assert Parent(d) == target;
    assert c <= target <==> c < d;
    if d !in t && CanRename(t, c, d) {
      RenameWellFormed(t, c, d);
      forall m | m in names[1..]
        ensures source + [m] in Renamed(t, c, d)
        ensures target + [m] in Renamed(t, c, d) <==> target + [m] in t
      {
        SiblingsStay(t, source, target, names[0], m);
      }
    }
  }

  lemma ChildAbove(p: Path, n: string, q: Path)
    ensures p + [n] <= q <==> p < q && q[|p|] == n
  {}

  lemma InLine(a: Path, b: Path, q: Path)
    ensures a <= q && b <= q ==> a <= b || b <= a
  {}

  lemma UpToChild(p: Path, n: string, q: Path)
    ensures q <= p + [n] ==> q == p + [n] || q <= p
  {
    if q <= p + [n] && |q| <= |p| {
      assert q == (p + [n])[..|q|] == p[..|q|];
    }
  }

  lemma SiblingsStay(t: Tree, source: Path, target: Path, n: string, m: string)
    requires WellFormed(t) && n != m && target + [n] !in t && source + [n] != target && !(source + [n] <= target)
    ensures source + [m] in t ==> source + [m] in Renamed(t, source + [n], target + [n])
    ensures target + [m] in Renamed(t, source + [n], target + [n]) <==> target + [m] in t
  {
    var c, d := source + [n], target + [n];
    AbsentBelow(t, d);
    OneName(source, n, m, source + [m]);
    OneName(target, n, m, target + [m]);
    UpToChild(target, m, c);
    OneName(target, n, m, c);
  }

  lemma ShiftJoins(t: Tree, u: Tree, source: Path, target: Path, names: seq<string>, v: Option<Tree>)
    requires names != [] && ShiftReady(t, source, target, names) && source + [names[0]] != target
    requires var c, d := source + [names[0]], target + [names[0]];
      !(c <= target) && d !in t && u == Renamed(t, c, d)
    requires MayShift(u, source, target, names[1..]) <==> MayShift(t, source, target, names)
    requires ShiftIs(u, source, target, names[1..], v)
    ensures ShiftIs(t, source, target, names, v)
  {
    if v.Some? {
      forall q
        ensures ShiftedAt(t, v.value, source, target, names, q)
      {
        assert ShiftedAt(u, v.value, source, target, names[1..], q);
        ShiftJoinsAt(t, u, source, target, names, v.value, q);
      }
    }
  }

  lemma ShiftJoinsAt(t: Tree, u: Tree, source: Path, target: Path, names: seq<string>, v: Tree, q: Path)
    requires names != [] && ShiftReady(t, source, target, names) && source + [names[0]] != target
    requires var c, d := source + [names[0]], target + [names[0]];
      !(c <= target) && d !in t && u == Renamed(t, c, d)
    requires MayShift(t, source, target, names) && ShiftedAt(u, v, source, target, names[1..], q)
    ensures ShiftedAt(t, v, source, target, names, q)
  {
    hide ShiftReady, MayShift, Renamed;
    assert forall m | m in names :: m == names[0] || m in names[1..];
    var d := target + [names[0]];
    if target < q && q[|target|] in names[1..] && source + [q[|target|]] != target {
      ShiftedLater(t, source, target, names, q);
    } else if d <= q {
      ShiftedNow(t, source, target, names, q);
    } else {
      NotShifted(t, source, target, names, q);
    }
  }

  lemma ShiftedLater(t: Tree, source: Path, target: Path, names: seq<string>, q: Path)
    requires names != [] && ShiftReady(t, source, target, names) && MayShift(t, source, target, names)
    requires target + [names[0]] !in t && target < q && q[|target|] in names[1..] && source + [q[|target|]] != target
    ensures var u, o := Renamed(t, source + [names[0]], target + [names[0]]), source + q[|target|..];
      (o in u <==> o in t) && (o in t ==> u[o] == t[o])
  {
    var m := q[|target|];
    assert m in names && m != names[0];
    ArrivedSame(t, source, target, names[0], m, source + q[|target|..]);
  }

  lemma ShiftedNow(t: Tree, source: Path, target: Path, names: seq<string>, q: Path)
    requires names != [] && ShiftReady(t, source, target, names) && MayShift(t, source, target, names)
    requires target + [names[0]] !in t && target + [names[0]] <= q && source + [names[0]] != target
    ensures var u, o := Renamed(t, source + [names[0]], target + [names[0]]), source + q[|target|..];
      (q in u <==> o in t) && (o in t ==> u[q] == t[o])
    ensures q[|target|] == names[0] && !Leaves(source, target, names[1..], q)
  {
    assert (source + [names[0]]) + q[|target + [names[0]]|..] == source + q[|target|..];
    LeftNotArrived(t, source, target, names, q);
  }

  lemma NotShifted(t: Tree, source: Path, target: Path, names: seq<string>, q: Path)
    requires names != [] && !(target + [names[0]] <= q)
    ensures var u := Renamed(t, source + [names[0]], target + [names[0]]);
      (q in u <==> q in t && !(source + [names[0]] <= q)) && (q in u ==> u[q] == t[q])
    ensures target < q ==> q[|target|] != names[0]
    ensures source + [names[0]] <= q <==> source < q && q[|source|] == names[0]
  {
    ChildAbove(target, names[0], q);
    ChildAbove(source, names[0], q);
  }

  lemma ArrivedSame(t: Tree, source: Path, target: Path, n: string, m: string, o: Path)
    requires WellFormed(t) && n != m && target + [n] !in t && source + [m] <= o && !(source + [m] <= target) && source + [m] in t
    ensures var u := Renamed(t, source + [n], target + [n]); (o in u <==> o in t) && (o in t ==> u[o] == t[o])
  {
    var c, d := source + [n], target + [n];
    AbsentBelow(t, d);
    OneName(source, n, m, o);
    InLine(d, source + [m], o);
    UpToChild(target, n, source + [m]);
  }

  lemma LeftNotArrived(t: Tree, source: Path, target: Path, names: seq<string>, q: Path)
    requires names != [] && ShiftReady(t, source, target, names) && target + [names[0]] <= q && target + [names[0]] !in t
    requires MayShift(t, source, target, names)
    ensures !Leaves(source, target, names[1..], q)
  {
    var d := target + [names[0]];
    AbsentBelow(t, d);
    if source < q {
      assert source + [q[|source|]] <= q;
      assert q[|source|] in names[1..] ==> q[|source|] in names;
      InLine(d, source + [q[|source|]], q);
      UpToChild(target, names[0], source + [q[|source|]]);
    }
  }
}
