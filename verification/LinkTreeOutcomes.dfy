/** What linking a directory tree into another comes to: real directories, a link for every other entry. */
module LinkTreeOutcomes {
  import opened Text
  import opened FileTree
  import opened TreeOutcomes
  import opened CopyOutcomes
  import opened LinkOutcomes
  import P = PlainSteps

  /** The entry of the linked tree that is to show at `q`, if `.DS_Store` is not on the way to it. */
  ghost predicate Counterpart(t: Tree, source: Path, target: Path, q: Path) {
    target <= q && ".DS_Store" !in q[|target|..] && source + q[|target|..] in t
  }

  /** The entry that is to show at `q` is no directory, so a link is to stand there. */
  ghost predicate ShowsLink(t: Tree, source: Path, target: Path, q: Path) {
    Counterpart(t, source, target, q) && !t[source + q[|target|..]].Dir?
  }

  /** A link takes a place above `q`. */
  ghost predicate Covered(t: Tree, source: Path, target: Path, q: Path) {
    exists k | |target| <= k < |q| :: ShowsLink(t, source, target, q[..k])
  }

  /** What stands at `q`, which is at or below the target, once `source` is linked there. */
  ghost predicate LinkedAt(t: Tree, t': Tree, source: Path, target: Path, q: Path)
    requires target <= q
  {
    if Counterpart(t, source, target, q) then
      var o := source + q[|target|..];
      && q in t'
      && t'[q] == if !t[o].Dir? then Link(TextOf(o)) else if q in t && t[q].Dir? then t[q] else Dir(NEW_DIR_MODE)
    else (q in t' <==> q in t && !Covered(t, source, target, q)) && (q in t' ==> t'[q] == t[q])
  }

  ghost predicate LinkedTree(t: Tree, t': Tree, source: Path, target: Path) {
    && (forall q | target <= q :: LinkedAt(t, t', source, target, q))
    && (forall q | q in t && !(target <= q) :: q in t' && t'[q] == t[q])
    && (forall q | q in t' && !(target <= q) :: q in t)
  }

  /** No directory that is to be linked lies too deep to be opened. */
  ghost predicate ShallowBut(t: Tree, p: Path) {
    forall q | q in t && p <= q && ".DS_Store" !in q[|p|..] && t[q].Dir? :: |q| <= MAX_DEPTH
  }

  ghost predicate TreeLinkIs(t: Tree, source: Path, target: Path, v: Option<Tree>) {
    && (v.Some? <==> source in t && t[source].Dir? && ShallowBut(t, source))
    && (v.Some? ==> WellFormed(v.value) && LinkedTree(t, v.value, source, target))
  }

  /** The same for the children that the names call. */
  ghost predicate PartLinked(t: Tree, t': Tree, source: Path, target: Path, names: seq<string>) {
    && (forall q | target < q && q[|target|] in names && q[|target|] != ".DS_Store" :: LinkedAt(t, t', source, target, q))
    && (forall q | !(target < q && q[|target|] in names && q[|target|] != ".DS_Store") ::
          (q in t' <==> q in t) && (q in t' ==> t'[q] == t[q]))
  }

  ghost predicate PartLinkIs(t: Tree, source: Path, target: Path, names: seq<string>, v: Option<Tree>) {
    && (v.Some? <==> forall n | n in names && n != ".DS_Store" :: ShallowBut(t, source + [n]))
    && (v.Some? ==> WellFormed(v.value) && PartLinked(t, v.value, source, target, names))
  }

  ghost predicate LinkReady(t: Tree, source: Path, target: Path) {
    && WellFormed(t) && Apart(source, target)
    && source in t && t[source].Dir? && target in t && t[target].Dir?
  }

  // ----- one child seen from its parent -----

  lemma ChildCounterpart(t: Tree, source: Path, target: Path, n: string, q: Path)
    requires target + [n] <= q && n != ".DS_Store"
    ensures source + [n] + q[|target + [n]|..] == source + q[|target|..]
    ensures Counterpart(t, source + [n], target + [n], q) <==> Counterpart(t, source, target, q)
    ensures ShowsLink(t, source + [n], target + [n], q) <==> ShowsLink(t, source, target, q)
  {
    assert q[|target|..] == [n] + q[|target| + 1..];
  }

  lemma ChildCovered(t: Tree, source: Path, target: Path, n: string, q: Path)
    requires target + [n] <= q && n != ".DS_Store" && source in t && t[source].Dir?
    ensures Covered(t, source + [n], target + [n], q) <==> Covered(t, source, target, q)
  {
    forall k | |target| + 1 <= k < |q|
      ensures ShowsLink(t, source + [n], target + [n], q[..k]) <==> ShowsLink(t, source, target, q[..k])
    {
      ChildCounterpart(t, source, target, n, q[..k]);
    }
    assert q[..|target|] == target && source + target[|target|..] == source;
    hide Counterpart;
    assert !ShowsLink(t, source, target, q[..|target|]);
  }

  lemma ChildLinkedAt(t: Tree, t': Tree, source: Path, target: Path, n: string, q: Path)
    requires target + [n] <= q && n != ".DS_Store" && source in t && t[source].Dir?
    ensures LinkedAt(t, t', source + [n], target + [n], q) <==> LinkedAt(t, t', source, target, q)
  {
    hide Counterpart, Covered;
    ChildCounterpart(t, source, target, n, q);
    ChildCovered(t, source, target, n, q);
  }

  /** The rule for `q` looks at the linked tree and at `q` itself only. */
  lemma LinkedAlike(t: Tree, u: Tree, t': Tree, source: Path, target: Path, q: Path)
    requires SameBelow(t, u, source) && target <= q && (q in t <==> q in u) && (q in t ==> t[q] == u[q])
    ensures LinkedAt(u, t', source, target, q) <==> LinkedAt(t, t', source, target, q)
  {
    forall p
      ensures Counterpart(u, source, target, p) <==> Counterpart(t, source, target, p)
      ensures ShowsLink(u, source, target, p) <==> ShowsLink(t, source, target, p)
      ensures Counterpart(t, source, target, p) ==> t[source + p[|target|..]] == u[source + p[|target|..]]
    {
      if target <= p {
        assert source <= source + p[|target|..];
      }
    }
  }

  // ----- one child that is no directory -----

  /** A link in place of whatever was there. */
  lemma LeafLinked(t: Tree, source: Path, target: Path, n: string)
    requires LinkReady(t, source, target) && source + [n] in t && !t[source + [n]].Dir? && n != ".DS_Store"
    ensures var u := Without(t, target + [n])[target + [n] := Link(TextOf(source + [n]))];
      forall q | target + [n] <= q :: LinkedAt(t, u, source + [n], target + [n], q)
  {
    hide TextOf;
    var c, e := source + [n], target + [n];
    var u := Without(t, e)[e := Link(TextOf(c))];
    NothingBelow(t, c);
    forall q | e <= q
      ensures LinkedAt(t, u, c, e, q)
    {
      if q == e {
        assert c + q[|e|..] == c;
      } else {
        assert c + q[|e|..] != c && c <= c + q[|e|..];
        assert q[..|e|] == e && c + e[|e|..] == c;
        assert ShowsLink(t, c, e, q[..|e|]);
      }
    }
  }

  // ----- one child that is a directory -----

  ghost function MadeDirectory(t: Tree, e: Path): Tree {
    if e in t && t[e].Dir? then t else Without(t, e)[e := Dir(NEW_DIR_MODE)]
  }

  lemma DirectoryMade(t: Tree, target: Path, n: string)
    requires WellFormed(t) && target in t && t[target].Dir?
    ensures var e := target + [n]; var u := if e in t && !t[e].Dir? then Without(t, e) else t;
      WellFormed(MadeDirectory(t, e)) && P.MakeParents(u, e) == Some(MadeDirectory(t, e))
  {
    var e := target + [n];
    var u := if e in t && !t[e].Dir? then Without(t, e) else t;
    assert Parent(e) == target && !(e <= target);
    WithoutWellFormed(t, e);
    if e !in u {
      AbsentBelow(u, e);
      assert Without(t, e) == u;
      CreateWellFormed(u, e, Dir(NEW_DIR_MODE));
      assert P.MakeParents(u, target) == Some(u);
    }
  }

  lemma DirLinked(t: Tree, v: Tree, source: Path, target: Path, n: string)
    requires LinkReady(t, source, target) && source + [n] in t && t[source + [n]].Dir? && n != ".DS_Store"
    requires LinkedTree(MadeDirectory(t, target + [n]), v, source + [n], target + [n])
    ensures forall q | target + [n] <= q :: LinkedAt(t, v, source + [n], target + [n], q)
    ensures forall q | q in t && !(target + [n] <= q) :: q in v && v[q] == t[q]
    ensures forall q | q in v && !(target + [n] <= q) :: q in t
  {
    hide LinkedAt, Counterpart, MadeDirectory;
    var c, e := source + [n], target + [n];
    var u := MadeDirectory(t, e);
    MadeSame(t, source, target, n);
    forall q | e <= q
      ensures LinkedAt(t, v, c, e, q)
    {
      if q == e {
        RootLinked(t, v, source, target, n);
      } else {
        MadeAt(t, e, q);
        LinkedAlike(t, u, v, c, e, q);
      }
    }
    MadeOutside(t, e);
  }

  lemma RootLinked(t: Tree, v: Tree, source: Path, target: Path, n: string)
    requires LinkReady(t, source, target) && source + [n] in t && t[source + [n]].Dir?
    requires LinkedAt(MadeDirectory(t, target + [n]), v, source + [n], target + [n], target + [n])
    ensures LinkedAt(t, v, source + [n], target + [n], target + [n])
  {
    var c, e := source + [n], target + [n];
    MadeSame(t, source, target, n);
    assert c + e[|e|..] == c && c <= c;
    assert Counterpart(t, c, e, e) && Counterpart(MadeDirectory(t, e), c, e, e);
  }

  lemma MadeOutside(t: Tree, e: Path)
    ensures forall q | !(e <= q) :: (q in t <==> q in MadeDirectory(t, e)) && (q in t ==> t[q] == MadeDirectory(t, e)[q])
  {}

  lemma MadeSame(t: Tree, source: Path, target: Path, n: string)
    requires Apart(source, target)
    ensures SameBelow(t, MadeDirectory(t, target + [n]), source)
    ensures SameBelow(t, MadeDirectory(t, target + [n]), source + [n])
  {
    ApartBelow(target, source, target + [n]);
    assert source <= source + [n];
  }

  lemma MadeAt(t: Tree, e: Path, q: Path)
    requires WellFormed(t) && e < q
    ensures var u := MadeDirectory(t, e); (q in t <==> q in u) && (q in t ==> t[q] == u[q])
  {
    if e in t && !t[e].Dir? {
      NothingBelow(t, e);
    } else if e !in t {
      AbsentBelow(t, e);
    }
  }

  // ----- child after child -----

  /** The child `n` is linked, and all else is as it was. */
  ghost predicate ChildDone(t: Tree, u: Tree, source: Path, target: Path, n: string) {
    && WellFormed(u)
    && (forall q | target + [n] <= q :: LinkedAt(t, u, source + [n], target + [n], q))
    && (forall q | q in t && !(target + [n] <= q) :: q in u && u[q] == t[q])
    && (forall q | q in u && !(target + [n] <= q) :: q in t)
  }

  lemma ChildDoneReady(t: Tree, u: Tree, source: Path, target: Path, n: string)
    requires LinkReady(t, source, target) && ChildDone(t, u, source, target, n)
    ensures LinkReady(u, source, target) && SameBelow(t, u, source)
    ensures forall m :: source + [m] in u <==> source + [m] in t
    ensures forall m :: ShallowBut(u, source + [m]) <==> ShallowBut(t, source + [m])
  {
    OutsideSame(t, u, source, target, n);
    SameBelowShallow(t, u, source);
    forall m
      ensures ShallowBut(u, source + [m]) <==> ShallowBut(t, source + [m])
    {
      SameBelowChild(t, u, source, m);
      ShallowButAlike(t, u, source + [m]);
    }
  }

  lemma OutsideSame(t: Tree, u: Tree, source: Path, target: Path, n: string)
    requires LinkReady(t, source, target) && ChildDone(t, u, source, target, n)
    ensures LinkReady(u, source, target) && SameBelow(t, u, source)
  {
    hide LinkedAt, WellFormed;
    ApartBelow(target, source, target + [n]);
    forall q | (q in t || q in u) && source <= q
      ensures !(target + [n] <= q)
    {
      ApartBelow(source, target + [n], q);
    }
    assert !(target + [n] <= target);
  }

  lemma SameBelowChild(t: Tree, u: Tree, p: Path, n: string)
    requires SameBelow(t, u, p)
    ensures SameBelow(t, u, p + [n])
  {
    assert forall q | q in t && p + [n] <= q :: p <= q;
    assert forall q | q in u && p + [n] <= q :: p <= q;
  }

  lemma LinksJoin(t: Tree, u: Tree, v: Tree, source: Path, target: Path, names: seq<string>)
    requires names != [] && names[0] != ".DS_Store" && names[0] !in names[1..]
    requires LinkReady(t, source, target) && ChildDone(t, u, source, target, names[0])
    requires PartLinked(u, v, source, target, names[1..])
    ensures PartLinked(t, v, source, target, names)
  {
    hide LinkReady, ChildDone, LinkedAt;
    ChildDoneReady(t, u, source, target, names[0]);
    assert forall m | m in names :: m == names[0] || m in names[1..];
    forall q
      ensures target < q && q[|target|] in names && q[|target|] != ".DS_Store" ==> LinkedAt(t, v, source, target, q)
      ensures !(target < q && q[|target|] in names && q[|target|] != ".DS_Store") ==>
                (q in v <==> q in t) && (q in v ==> v[q] == t[q])
    {
      LinksJoinAt(t, u, v, source, target, names, q);
    }
  }

  lemma LinksJoinAt(t: Tree, u: Tree, v: Tree, source: Path, target: Path, names: seq<string>, q: Path)
    requires names != [] && names[0] != ".DS_Store" && names[0] !in names[1..]
    requires LinkReady(t, source, target) && SameBelow(t, u, source) && ChildDone(t, u, source, target, names[0])
    requires PartLinked(u, v, source, target, names[1..])
    ensures target < q && q[|target|] in names && q[|target|] != ".DS_Store" ==> LinkedAt(t, v, source, target, q)
    ensures !(target < q && q[|target|] in names && q[|target|] != ".DS_Store") ==>
              (q in v <==> q in t) && (q in v ==> v[q] == t[q])
  {
    var n := names[0];
    ChildAbove(target, n, q);
    if target + [n] <= q {
      assert LinkedAt(t, u, source + [n], target + [n], q);
      SameThere(t, u, v, source + [n], target + [n], q);
      ChildLinkedAt(t, v, source, target, n, q);
    } else if target < q && q[|target|] in names[1..] && q[|target|] != ".DS_Store" {
      LinkedAlike(t, u, v, source, target, q);
    }
  }

  lemma SameThere(t: Tree, u: Tree, v: Tree, source: Path, target: Path, q: Path)
    requires target <= q && (q in v <==> q in u) && (q in v ==> v[q] == u[q]) && LinkedAt(t, u, source, target, q)
    ensures LinkedAt(t, v, source, target, q)
  {
    hide Counterpart, Covered;
  }

  lemma ShallowButNames(t: Tree, source: Path, names: seq<string>)
    requires names != []
    ensures (forall n | n in names && n != ".DS_Store" :: ShallowBut(t, source + [n])) <==>
            (names[0] != ".DS_Store" ==> ShallowBut(t, source + [names[0]]))
            && forall n | n in names[1..] && n != ".DS_Store" :: ShallowBut(t, source + [n])
  {
    hide ShallowBut;
    assert names[0] in names && forall m | m in names :: m == names[0] || m in names[1..];
  }

  lemma PartJoins(t: Tree, u: Tree, source: Path, target: Path, names: seq<string>, v: Option<Tree>)
    requires names != [] && names[0] != ".DS_Store" && names[0] !in names[1..] && ShallowBut(t, source + [names[0]])
    requires LinkReady(t, source, target) && ChildDone(t, u, source, target, names[0])
    requires PartLinkIs(u, source, target, names[1..], v)
    ensures PartLinkIs(t, source, target, names, v)
  {
    hide LinkReady, ChildDone, ShallowBut, PartLinked, WellFormed;
    ChildDoneReady(t, u, source, target, names[0]);
    ShallowButNames(t, source, names);
    if v.Some? {
      LinksJoin(t, u, v.value, source, target, names);
    }
  }

  lemma PartFails(t: Tree, source: Path, target: Path, names: seq<string>)
    requires names != [] && names[0] != ".DS_Store" && !ShallowBut(t, source + [names[0]])
    ensures PartLinkIs(t, source, target, names, None)
  {
    hide ShallowBut;
    assert names[0] in names;
  }

  lemma PartSkips(t: Tree, source: Path, target: Path, names: seq<string>, v: Option<Tree>)
    requires names != [] && names[0] == ".DS_Store" && PartLinkIs(t, source, target, names[1..], v)
    ensures PartLinkIs(t, source, target, names, v)
  {
    hide ShallowBut, LinkedAt, WellFormed;
    ShallowButNames(t, source, names);
    assert forall m | m in names :: m == names[0] || m in names[1..];
  }

  // ----- the recursion -----

  lemma ChildLinks(t: Tree, source: Path, target: Path, n: string)
    requires LinkReady(t, source, target) && source + [n] in t && n != ".DS_Store" && !t[source + [n]].Dir?
    ensures P.PutLink(t, P.PathText(source + [n]), target + [n], true).Some?
    ensures ChildDone(t, P.PutLink(t, P.PathText(source + [n]), target + [n], true).value, source, target, n)
    ensures ShallowBut(t, source + [n])
  {
    PathTextIs(source + [n]);
    hide WellFormed, TextOf, LinkedAt, P.PathText, P.PutLink;
    NewLink(t, TextOf(source + [n]), target, n, true);
    LeafLinked(t, source, target, n);
    LeafShallow(t, source + [n]);
  }

  lemma LeafShallow(t: Tree, p: Path)
    requires WellFormed(t) && p in t && !t[p].Dir?
    ensures ShallowBut(t, p)
  {
    NothingBelow(t, p);
  }

  lemma {:induction false} TreeLinked(t: Tree, source: Path, target: Path)
    requires WellFormed(t) && Apart(source, target) && target in t && t[target].Dir?
    ensures TreeLinkIs(t, source, target, P.LinkTree(t, source, target))
    decreases P.Depth(source), 1, 0
  {
    assert P.MakeParents(t, target) == Some(t);
    if source in t && t[source].Dir? && |source| <= MAX_DEPTH {
      hide WellFormed, TreeLinkIs, PartLinkIs, P.LinkAll;
      var names := Listing(t, source).value;
      EachTreeLinked(t, source, target, names);
      WholeLinked(t, source, target, names, P.LinkAll(t, source, target, names));
    } else if source in t && t[source].Dir? {
      assert source[|source|..] == [];
    }
  }

  lemma WholeLinked(t: Tree, source: Path, target: Path, names: seq<string>, v: Option<Tree>)
    requires LinkReady(t, source, target) && |source| <= MAX_DEPTH && forall n :: n in names <==> source + [n] in t
    requires PartLinkIs(t, source, target, names, v)
    ensures TreeLinkIs(t, source, target, v)
  {
    hide WellFormed, LinkedAt;
    ShallowButChildren(t, source, names);
    if v.Some? {
      forall q | target <= q
        ensures LinkedAt(t, v.value, source, target, q)
      {
        RestLinkedAt(t, v.value, source, target, names, q);
      }
    }
  }

  lemma ShallowButChildren(t: Tree, source: Path, names: seq<string>)
    requires WellFormed(t) && |source| <= MAX_DEPTH && forall n :: n in names <==> source + [n] in t
    ensures ShallowBut(t, source) <==> forall n | n in names && n != ".DS_Store" :: ShallowBut(t, source + [n])
  {
    forall n | n in names && n != ".DS_Store" && ShallowBut(t, source)
      ensures ShallowBut(t, source + [n])
    {
      ShallowButChild(t, source, n);
    }
    if forall n | n in names && n != ".DS_Store" :: ShallowBut(t, source + [n]) {
      forall q | q in t && source <= q && ".DS_Store" !in q[|source|..] && t[q].Dir?
        ensures |q| <= MAX_DEPTH
      {
        if source < q {
          var n := q[|source|];
          assert q[|source|..][0] == n && source + [n] <= q;
          AncestorIn(t, q, source + [n]);
          assert q[|source|..] == [n] + q[|source + [n]|..];
        }
      }
    }
  }

  lemma ShallowButChild(t: Tree, p: Path, n: string)
    requires ShallowBut(t, p) && n != ".DS_Store"
    ensures ShallowBut(t, p + [n])
  {
    forall q | q in t && p + [n] <= q
      ensures p <= q && q[|p|..] == [n] + q[|p + [n]|..]
    {}
  }

  lemma RestLinkedAt(t: Tree, v: Tree, source: Path, target: Path, names: seq<string>, q: Path)
    requires LinkReady(t, source, target) && (forall n :: n in names <==> source + [n] in t) && target <= q
    requires PartLinked(t, v, source, target, names)
    ensures LinkedAt(t, v, source, target, q)
  {
    if q == target {
      assert source + q[|target|..] == source;
    } else if !(q[|target|] in names && q[|target|] != ".DS_Store") {
      var n := q[|target|];
      assert q[|target|..][0] == n;
      NoCounterpart(t, source, target, q, n);
    }
  }

  lemma NoCounterpart(t: Tree, source: Path, target: Path, q: Path, n: string)
    requires LinkReady(t, source, target) && target < q && q[|target|] == n && (source + [n] !in t || n == ".DS_Store")
    ensures !Counterpart(t, source, target, q) && !Covered(t, source, target, q)
  {
    AbsentUnlessHere(t, source, target, q, n);
    forall k | |target| <= k < |q|
      ensures !ShowsLink(t, source, target, q[..k])
    {
      if k == |target| {
        assert q[..k] == target && source + target[|target|..] == source;
      } else {
        AbsentUnlessHere(t, source, target, q[..k], n);
      }
    }
  }

  lemma AbsentUnlessHere(t: Tree, source: Path, target: Path, q: Path, n: string)
    requires WellFormed(t) && target < q && q[|target|] == n && (source + [n] !in t || n == ".DS_Store")
    ensures !Counterpart(t, source, target, q)
  {
    assert q[|target|..][0] == n && source + [n] <= source + q[|target|..];
    if source + [n] !in t {
      AbsentBelow(t, source + [n]);
    }
  }

  lemma {:induction false} EachTreeLinked(t: Tree, source: Path, target: Path, names: seq<string>)
    requires LinkReady(t, source, target) && |source| <= MAX_DEPTH && forall n | n in names :: source + [n] in t
    requires forall i, j | 0 <= i < j < |names| :: names[i] != names[j]
    ensures PartLinkIs(t, source, target, names, P.LinkAll(t, source, target, names))
    decreases P.Depth(source), 0, |names|, 1
  {
    if names == [] {
      return;
    }
    hide LinkReady, PartLinkIs, ChildDone, ShallowBut, P.LinkAll, P.PutLink, P.LinkDirectory, P.PathText;
    var c, e := source + [names[0]], target + [names[0]];
    LinkAllStep(t, source, target, names);
    if names[0] == ".DS_Store" {
      EachTreeLinked(t, source, target, names[1..]);
      PartSkips(t, source, target, names, P.LinkAll(t, source, target, names[1..]));
    } else if t[c].Dir? {
      DirectoryLinked(t, source, target, names[0]);
      if P.LinkDirectory(t, c, e).Some? {
        Continued(t, P.LinkDirectory(t, c, e).value, source, target, names);
      } else {
        PartFails(t, source, target, names);
      }
    } else {
      ChildLinks(t, source, target, names[0]);
      Continued(t, P.PutLink(t, P.PathText(c), e, true).value, source, target, names);
    }
  }

  lemma LinkAllStep(t: Tree, source: Path, target: Path, names: seq<string>)
    requires names != [] && |source| <= MAX_DEPTH && source + [names[0]] in t
    ensures var c, e := source + [names[0]], target + [names[0]];
      P.LinkAll(t, source, target, names) ==
      if names[0] == ".DS_Store" then P.LinkAll(t, source, target, names[1..])
      else
        match if t[c].Dir? then P.LinkDirectory(t, c, e) else P.PutLink(t, P.PathText(c), e, true)
        case None => None
        case Some(u) => P.LinkAll(u, source, target, names[1..])
  {}

  lemma {:induction false} Continued(t: Tree, u: Tree, source: Path, target: Path, names: seq<string>)
    requires LinkReady(t, source, target) && |source| <= MAX_DEPTH && forall n | n in names :: source + [n] in t
    requires names != [] && names[0] != ".DS_Store" && forall i, j | 0 <= i < j < |names| :: names[i] != names[j]
    requires ChildDone(t, u, source, target, names[0]) && ShallowBut(t, source + [names[0]])
    ensures PartLinkIs(t, source, target, names, P.LinkAll(u, source, target, names[1..]))
    decreases P.Depth(source), 0, |names|, 0
  {
    hide LinkReady, PartLinkIs, ChildDone, ShallowBut, P.LinkAll;
    ChildDoneReady(t, u, source, target, names[0]);
    EachTreeLinked(u, source, target, names[1..]);
    PartJoins(t, u, source, target, names, P.LinkAll(u, source, target, names[1..]));
  }

  lemma {:induction false} DirectoryLinked(t: Tree, source: Path, target: Path, n: string)
    requires LinkReady(t, source, target) && |source| <= MAX_DEPTH && source + [n] in t && t[source + [n]].Dir? && n != ".DS_Store"
    ensures P.LinkDirectory(t, source + [n], target + [n]).Some? <==> ShallowBut(t, source + [n])
    ensures P.LinkDirectory(t, source + [n], target + [n]).Some? ==>
              ChildDone(t, P.LinkDirectory(t, source + [n], target + [n]).value, source, target, n)
    decreases P.Depth(source + [n]), 2, 0
  {
    hide WellFormed, LinkedTree, LinkedAt, ShallowBut, P.LinkTree, MadeDirectory;
    var c, e := source + [n], target + [n];
    ChildApart(t, source, target, n);
    DirectoryMade(t, target, n);
    var u := MadeDirectory(t, e);
    MadeIs(t, e);
    TreeLinked(u, c, e);
    MadeSame(t, source, target, n);
    ShallowButAlike(t, u, c);
    if P.LinkTree(u, c, e).Some? {
      DirLinked(t, P.LinkTree(u, c, e).value, source, target, n);
    }
  }

  lemma MadeIs(t: Tree, e: Path)
    ensures e in MadeDirectory(t, e) && MadeDirectory(t, e)[e].Dir?
  {}

  lemma ShallowButAlike(t: Tree, u: Tree, p: Path)
    requires SameBelow(t, u, p)
    ensures ShallowBut(u, p) <==> ShallowBut(t, p)
    ensures p in u <==> p in t
    ensures p in t ==> u[p] == t[p]
  {
    assert p <= p;
  }
}
