/** What a recursive copy comes to, and that none into its own subtree ends well. */
module CopyOutcomes {
  import opened Text
  import opened FileTree
  import opened TreeOutcomes
  import P = PlainSteps

  // ----- copies -----

  /** The subtree at `d` is a copy of the one at `p`, modes included, and all else is as it was. */
  ghost predicate Copied(t: Tree, t': Tree, p: Path, d: Path) {
    && Apart(p, d) && p in t
    && (forall q | q in t && p <= q :: d + q[|p|..] in t' && t'[d + q[|p|..]] == t[q])
    && (forall q | q in t' && d <= q :: p + q[|d|..] in t)
    && SameElsewhere(t, t', d)
  }

  /** The same with nothing new above `d`. */
  ghost predicate Mirrored(t: Tree, t': Tree, p: Path, d: Path) {
    && (forall q | q in t && p <= q :: d + q[|p|..] in t' && t'[d + q[|p|..]] == t[q])
    && (forall q | q in t' && d <= q :: p + q[|d|..] in t)
    && (forall q | q in t && !(d <= q) :: q in t' && t'[q] == t[q])
    && (forall q | q in t' && !(d <= q) :: q in t)
  }

  ghost predicate CanCopy(t: Tree, p: Path, target: Path, recursive: bool, overwrite: bool) {
    && RoomAt(t, target) && p in t && Apart(p, LandsAt(t, p, target))
    && (LandsAt(t, p, target) in t ==> overwrite)
    && (t[p].Dir? ==> recursive && Shallow(t, p))
  }

  lemma AbsentBelow(t: Tree, d: Path)
    requires WellFormed(t) && d !in t
    ensures forall q | q in t :: !(d <= q)
  {
    forall q | q in t
      ensures !(d <= q)
    {
      if d <= q {
        AncestorIn(t, q, d);
      }
    }
  }

  /** The trees are the same at and below `p`. */
  ghost predicate SameBelow(t: Tree, t': Tree, p: Path) {
    && (forall q | q in t && p <= q :: q in t' && t'[q] == t[q])
    && (forall q | q in t' && p <= q :: q in t)
  }

  lemma SameBelowShallow(t: Tree, t': Tree, p: Path)
    requires SameBelow(t, t', p)
    ensures Shallow(t', p) <==> Shallow(t, p)
    ensures forall n :: Shallow(t', p + [n]) <==> Shallow(t, p + [n])
    ensures forall n :: p + [n] in t' <==> p + [n] in t
  {
    forall n
      ensures Shallow(t', p + [n]) <==> Shallow(t, p + [n])
      ensures p + [n] in t' <==> p + [n] in t
    {
      assert p <= p + [n];
      assert forall q | q in t && p + [n] <= q :: p <= q;
      assert forall q | q in t' && p + [n] <= q :: p <= q;
    }
  }

  lemma OneName(d: Path, n: string, m: string, q: Path)
    ensures d + [n] <= q && d + [m] <= q ==> n == m
  {
    if d + [n] <= q && d + [m] <= q {
      assert q[|d|] == (d + [n])[|d|] == n;
    }
  }

  ghost predicate CopyIs(t: Tree, p: Path, d: Path, recursive: bool, v: Option<Tree>) {
    && (v.Some? <==> p in t && CanCreate(t, d) && (t[p].Dir? ==> recursive && Shallow(t, p)))
    && (v.Some? ==> WellFormed(v.value) && Mirrored(t, v.value, p, d))
  }

  ghost predicate CopiesAre(t: Tree, p: Path, d: Path, names: seq<string>, v: Option<Tree>) {
    && (v.Some? <==> forall n | n in names :: Shallow(t, p + [n]))
    && (v.Some? ==> WellFormed(v.value) && PartMirrored(t, v.value, p, d, names))
  }

  lemma {:induction false} CopyDone(t: Tree, p: Path, d: Path, recursive: bool)
    requires WellFormed(t) && Apart(p, d)
    ensures CopyIs(t, p, d, recursive, P.CopyTree(t, p, d, recursive))
    decreases P.Depth(p), 1, 0
  {
    if p !in t || !CanCreate(t, d) {
    } else if !t[p].Dir? {
      CopyOne(t, p, d, recursive);
    } else if recursive && |p| <= MAX_DEPTH {
      hide CopyIs, CopiesAre, WellFormed, CanCreate, P.CopyAll;
      var u := t[d := Dir(t[p].mode)];
      CreateWellFormed(t, d, t[p]);
      var names := Listing(u, p).value;
      ChildrenApart(t, u, p, d, names);
      CopiesDone(u, p, d, names);
      CopyDir(t, u, p, d, names, P.CopyAll(u, p, d, names));
    } else {
      DirDeep(t, p);
    }
  }

  lemma CopyOne(t: Tree, p: Path, d: Path, recursive: bool)
    requires WellFormed(t) && Apart(p, d) && p in t && !t[p].Dir? && CanCreate(t, d)
    ensures CopyIs(t, p, d, recursive, Some(t[d := t[p]]))
  {
    CreateWellFormed(t, d, t[p]);
    AbsentBelow(t, d);
    NothingBelow(t, p);
    OneMirrored(t, p, d);
  }

  lemma CopyDir(t: Tree, u: Tree, p: Path, d: Path, names: seq<string>, v: Option<Tree>)
    requires WellFormed(t) && Apart(p, d) && p in t && t[p].Dir? && CanCreate(t, d) && u == t[d := Dir(t[p].mode)]
    requires |p| <= MAX_DEPTH && Listing(u, p) == Some(names) && CopiesAre(u, p, d, names, v)
    ensures CopyIs(t, p, d, true, v)
  {
    hide WellFormed, Mirrored, PartMirrored, Shallow, CanCreate;
    ChildrenApart(t, u, p, d, names);
    FreeForCreation(t, d);
    BelowListed(t, p, names);
    if v.Some? {
      AllMirrored(t, u, v.value, p, d, names);
    }
  }

  lemma FreeForCreation(t: Tree, d: Path)
    requires CanCreate(t, d)
    ensures d !in t
  {}

  lemma DirDeep(t: Tree, p: Path)
    requires p in t && t[p].Dir?
    ensures Shallow(t, p) ==> |p| <= MAX_DEPTH
  {}

  lemma OneMirrored(t: Tree, p: Path, d: Path)
    requires WellFormed(t) && Apart(p, d) && p in t && d !in t
    requires (forall q | q in t && p <= q :: q == p) && forall q | q in t :: !(d <= q)
    ensures Mirrored(t, t[d := t[p]], p, d)
  {
    assert d + p[|p|..] == d && p + d[|d|..] == p;
  }

  lemma ChildrenApart(t: Tree, u: Tree, p: Path, d: Path, names: seq<string>)
    requires WellFormed(t) && Apart(p, d) && p in t && t[p].Dir? && CanCreate(t, d) && u == t[d := Dir(t[p].mode)]
    requires Listing(u, p) == Some(names)
    ensures forall n :: n in names <==> p + [n] in t
    ensures forall n | n in names :: p + [n] in u && d + [n] !in u
    ensures forall i, j | 0 <= i < j < |names| :: names[i] != names[j]
    ensures forall n :: Shallow(u, p + [n]) <==> Shallow(t, p + [n])
    ensures d in u && u[d].Dir?
  {
    AbsentBelow(t, d);
    assert SameBelow(t, u, p);
    SameBelowShallow(t, u, p);
    forall n
      ensures d + [n] !in u
    {
      assert d <= d + [n];
    }
  }

  /** Below `d` the children called by the names are copies of those of `p`. */
  ghost predicate PartMirrored(t: Tree, t': Tree, p: Path, d: Path, names: seq<string>) {
    && (forall q | BelowAny(d, names, q) :: q in t' <==> p + q[|d|..] in t)
    && (forall q | BelowAny(d, names, q) && q in t' :: t'[q] == t[p + q[|d|..]])
    && (forall q | !BelowAny(d, names, q) :: q in t' <==> q in t)
    && (forall q | !BelowAny(d, names, q) && q in t' :: t'[q] == t[q])
  }

  lemma AllMirrored(t: Tree, u: Tree, v: Tree, p: Path, d: Path, names: seq<string>)
    requires WellFormed(t) && Apart(p, d) && p in t && t[p].Dir? && d !in t && u == t[d := Dir(t[p].mode)]
    requires (forall n :: n in names <==> p + [n] in t) && PartMirrored(u, v, p, d, names)
    ensures Mirrored(t, v, p, d)
  {
    hide WellFormed, PartMirrored, Apart, BelowAny;
    forall q
      ensures d <= q ==> (q in v <==> p + q[|d|..] in t) && (q in v ==> v[q] == t[p + q[|d|..]])
      ensures !(d <= q) ==> (q in v <==> q in t) && (q in v ==> v[q] == t[q])
    {
      if d <= q {
        MirroredInside(t, u, v, p, d, names, q);
      } else {
        MirroredOutside(t, u, v, d, p, names, q);
      }
    }
    forall q | q in t && p <= q
      ensures d + q[|p|..] in v && v[d + q[|p|..]] == t[q]
    {
      assert p + (d + q[|p|..])[|d|..] == q && d <= d + q[|p|..];
    }
  }

  lemma MirroredOutside(t: Tree, u: Tree, v: Tree, d: Path, p: Path, names: seq<string>, q: Path)
    requires PartMirrored(u, v, p, d, names) && d in u && u == t[d := u[d]] && !(d <= q)
    ensures (q in v <==> q in t) && (q in v ==> v[q] == t[q])
  {
    assert !BelowAny(d, names, q);
  }

  lemma MirroredInside(t: Tree, u: Tree, v: Tree, p: Path, d: Path, names: seq<string>, q: Path)
    requires WellFormed(t) && Apart(p, d) && p in t && t[p].Dir? && d !in t && u == t[d := Dir(t[p].mode)]
    requires (forall n :: n in names <==> p + [n] in t) && PartMirrored(u, v, p, d, names) && d <= q
    ensures (q in v <==> p + q[|d|..] in t) && (q in v ==> v[q] == t[p + q[|d|..]])
  {
    hide WellFormed, Apart;
    var r := p + q[|d|..];
    ApartBelow(p, d, r);
    if q == d {
      assert !BelowAny(d, names, q) && r == p;
    } else if q[|d|] in names {
      assert d + [q[|d|]] <= q;
      assert BelowAny(d, names, q);
      DiffersFrom(r, d);
    } else {
      NotBelow(d, names, q);
      AbsentBelow(t, d);
      ChildMissing(t, p, q[|d|], r);
    }
  }

  lemma DiffersFrom(r: Path, d: Path)
    requires Apart(r, d)
    ensures r != d
  {}

  lemma ChildMissing(t: Tree, p: Path, n: string, r: Path)
    requires WellFormed(t) && p + [n] !in t && p + [n] <= r
    ensures r !in t
  {
    if r in t {
      AncestorIn(t, r, p + [n]);
    }
  }

  lemma NotBelow(d: Path, names: seq<string>, q: Path)
    requires d < q && q[|d|] !in names
    ensures !BelowAny(d, names, q)
  {
    forall n | n in names
      ensures !(d + [n] <= q)
    {
      OneName(d, n, q[|d|], q);
    }
  }

  lemma {:induction false} CopiesDone(t: Tree, p: Path, d: Path, names: seq<string>)
    requires WellFormed(t) && Apart(p, d) && |p| <= MAX_DEPTH && d in t && t[d].Dir?
    requires forall n | n in names :: p + [n] in t && d + [n] !in t
    requires forall i, j | 0 <= i < j < |names| :: names[i] != names[j]
    ensures CopiesAre(t, p, d, names, P.CopyAll(t, p, d, names))
    decreases P.Depth(p), 0, |names|
  {
    if names == [] {
      NoneMirrored(t, p, d);
      return;
    }
    hide CopyIs, CopiesAre, Mirrored, SameBelow, WellFormed, Shallow, Apart, CanCreate, P.CopyTree;
    var c, e := p + [names[0]], d + [names[0]];
    ChildApart(t, p, d, names[0]);
    CopyDone(t, c, e, true);
    FirstCopy(t, p, d, names, P.CopyTree(t, c, e, true));
    if P.CopyTree(t, c, e, true).Some? {
      var u := P.CopyTree(t, c, e, true).value;
      CopiesDone(u, p, d, names[1..]);
      CopiesJoin(t, u, p, d, names, P.CopyAll(u, p, d, names[1..]));
    }
  }

  lemma NoneMirrored(t: Tree, p: Path, d: Path)
    requires WellFormed(t)
    ensures CopiesAre(t, p, d, [], Some(t))
  {
    assert forall q :: !BelowAny(d, [], q);
  }

  lemma FirstCopy(t: Tree, p: Path, d: Path, names: seq<string>, v: Option<Tree>)
    requires WellFormed(t) && Apart(p, d) && d in t && t[d].Dir? && names != []
    requires forall n | n in names :: p + [n] in t && d + [n] !in t
    requires forall i, j | 0 <= i < j < |names| :: names[i] != names[j]
    requires CopyIs(t, p + [names[0]], d + [names[0]], true, v)
    ensures v.None? ==> CopiesAre(t, p, d, names, None)
    ensures v.Some? ==>
              && WellFormed(v.value) && d in v.value && v.value[d].Dir? && Shallow(t, p + [names[0]])
              && Mirrored(t, v.value, p + [names[0]], d + [names[0]]) && SameBelow(t, v.value, p)
              && (forall n | n in names[1..] :: p + [n] in v.value && d + [n] !in v.value)
              && (forall n :: Shallow(v.value, p + [n]) <==> Shallow(t, p + [n]))
  {
    hide Mirrored, SameBelow, WellFormed, Shallow, Apart, CanCreate;
    ChildApart(t, p, d, names[0]);
    ShallowUnlessDir(t, p + [names[0]]);
    if v.Some? {
      FirstMirrored(t, v.value, p, d, names);
    }
  }

  lemma CopiesJoin(t: Tree, u: Tree, p: Path, d: Path, names: seq<string>, v: Option<Tree>)
    requires Apart(p, d) && names != [] && Mirrored(t, u, p + [names[0]], d + [names[0]]) && SameBelow(t, u, p)
    requires Shallow(t, p + [names[0]]) && forall n :: Shallow(u, p + [n]) <==> Shallow(t, p + [n])
    requires forall i, j | 0 <= i < j < |names| :: names[i] != names[j]
    requires CopiesAre(u, p, d, names[1..], v)
    ensures CopiesAre(t, p, d, names, v)
  {
    hide Mirrored, PartMirrored, SameBelow, WellFormed, Shallow, Apart;
    ShallowNames(t, p, names);
    if v.Some? {
      MirroredTwice(t, u, v.value, p, d, names);
    }
  }

  lemma ChildApart(t: Tree, p: Path, d: Path, n: string)
    requires Apart(p, d) && d in t && t[d].Dir?
    ensures Apart(p + [n], d + [n]) && (d + [n] !in t ==> CanCreate(t, d + [n]))
  {
    ApartBelow(p, d, p + [n]);
    ApartBelow(d, p + [n], d + [n]);
    assert Parent(d + [n]) == d;
  }

  lemma ShallowNames(t: Tree, p: Path, names: seq<string>)
    requires names != []
    ensures (forall n | n in names :: Shallow(t, p + [n])) <==>
            Shallow(t, p + [names[0]]) && forall n | n in names[1..] :: Shallow(t, p + [n])
  {
    hide Shallow;
    assert forall n | n in names :: n == names[0] || n in names[1..];
  }

  lemma FirstMirrored(t: Tree, u: Tree, p: Path, d: Path, names: seq<string>)
    requires Apart(p, d) && names != [] && Mirrored(t, u, p + [names[0]], d + [names[0]]) && d in t && t[d].Dir?
    requires forall n | n in names :: p + [n] in t && d + [n] !in t
    requires forall i, j | 0 <= i < j < |names| :: names[i] != names[j]
    ensures SameBelow(t, u, p)
    ensures d in u && u[d].Dir? && forall n | n in names[1..] :: p + [n] in u && d + [n] !in u
    ensures forall n :: Shallow(u, p + [n]) <==> Shallow(t, p + [n])
  {
    var e := d + [names[0]];
    ApartBelow(d, p, e);
    forall q | (q in t || q in u) && p <= q
      ensures !(e <= q)
    {
      ApartBelow(p, e, q);
    }
    SameBelowShallow(t, u, p);
    forall n | n in names[1..]
      ensures !(e <= d + [n])
    {
      OneName(d, names[0], n, d + [n]);
    }
    assert !(e <= d);
  }

  lemma MirroredTwice(t: Tree, u: Tree, v: Tree, p: Path, d: Path, names: seq<string>)
    requires Apart(p, d) && names != [] && Mirrored(t, u, p + [names[0]], d + [names[0]])
    requires PartMirrored(u, v, p, d, names[1..])
    requires SameBelow(t, u, p)
    requires forall i, j | 0 <= i < j < |names| :: names[i] != names[j]
    ensures PartMirrored(t, v, p, d, names)
  {
    forall q
      ensures BelowAny(d, names, q) ==> (q in v <==> p + q[|d|..] in t) && (q in v ==> v[q] == t[p + q[|d|..]])
      ensures !BelowAny(d, names, q) ==> (q in v <==> q in t) && (q in v ==> v[q] == t[q])
    {
      MirroredAt(t, u, v, p, d, names, q);
    }
  }

  lemma MirroredAt(t: Tree, u: Tree, v: Tree, p: Path, d: Path, names: seq<string>, q: Path)
    requires Apart(p, d) && names != [] && Mirrored(t, u, p + [names[0]], d + [names[0]])
    requires PartMirrored(u, v, p, d, names[1..]) && SameBelow(t, u, p)
    requires forall i, j | 0 <= i < j < |names| :: names[i] != names[j]
    ensures BelowAny(d, names, q) ==> (q in v <==> p + q[|d|..] in t) && (q in v ==> v[q] == t[p + q[|d|..]])
    ensures !BelowAny(d, names, q) ==> (q in v <==> q in t) && (q in v ==> v[q] == t[q])
  {
    var n, rest := names[0], names[1..];
    var c, e := p + [n], d + [n];
    assert forall m | m in names :: m == n || m in rest;
    if e <= q {
      forall m | m in rest
        ensures !(d + [m] <= q)
      {
        OneName(d, n, m, q);
      }
      var r := p + q[|d|..];
      assert r == c + q[|e|..] && e + r[|c|..] == q && c <= r;
    } else if BelowAny(d, rest, q) {
      assert p <= p + q[|d|..];
    }
  }

  // ----- a copy into its own subtree -----

  lemma {:induction false} CopyKeeps(t: Tree, p: Path, d: Path, recursive: bool)
    requires WellFormed(t) && P.CopyTree(t, p, d, recursive).Some?
    ensures WellFormed(P.CopyTree(t, p, d, recursive).value)
    ensures forall q | q in t :: q in P.CopyTree(t, p, d, recursive).value && P.CopyTree(t, p, d, recursive).value[q] == t[q]
    decreases P.Depth(p), 1, 0
  {
    CreateWellFormed(t, d, t[p]);
    if t[p].Dir? {
      var u := t[d := Dir(t[p].mode)];
      CopiesKeep(u, p, d, Listing(u, p).value);
    }
  }

  lemma {:induction false} CopiesKeep(t: Tree, p: Path, d: Path, names: seq<string>)
    requires WellFormed(t) && P.CopyAll(t, p, d, names).Some?
    ensures WellFormed(P.CopyAll(t, p, d, names).value)
    ensures forall q | q in t :: q in P.CopyAll(t, p, d, names).value && P.CopyAll(t, p, d, names).value[q] == t[q]
    decreases P.Depth(p), 0, |names|
  {
    if names != [] {
      CopyKeeps(t, p + [names[0]], d + [names[0]], true);
      CopiesKeep(P.CopyTree(t, p + [names[0]], d + [names[0]], true).value, p, d, names[1..]);
    }
  }

  /** It finds its own copy again and again until a directory lies too deep to be opened. */
  lemma {:induction false} CopyIntoItselfFails(t: Tree, p: Path, d: Path, recursive: bool)
    requires WellFormed(t) && p < d && p in t && t[p].Dir?
    ensures P.CopyTree(t, p, d, recursive).None?
    decreases P.Depth(p), 1, 0
  {
    hide P.CopyAll, WellFormed;
    if recursive && CanCreate(t, d) && |p| <= MAX_DEPTH {
      var u := t[d := Dir(t[p].mode)];
      CreateWellFormed(t, d, Dir(t[p].mode));
      var names, x := Listing(u, p).value, d[|p|];
      assert p + [x] <= d && (p + [x]) < d + [x];
      AncestorIn(u, d, p + [x]);
      CopiesIntoItselfFail(u, p, d, names, x);
    }
  }

  lemma {:induction false} CopiesIntoItselfFail(t: Tree, p: Path, d: Path, names: seq<string>, x: string)
    requires WellFormed(t) && |p| <= MAX_DEPTH && x in names && p + [x] <= d && p + [x] in t && t[p + [x]].Dir?
    ensures P.CopyAll(t, p, d, names).None?
    decreases P.Depth(p), 0, |names|
  {
    if names[0] == x {
      assert (p + [x]) < d + [x];
      CopyIntoItselfFails(t, p + [x], d + [x], true);
    } else if P.CopyTree(t, p + [names[0]], d + [names[0]], true).Some? {
      CopyKeeps(t, p + [names[0]], d + [names[0]], true);
      CopiesIntoItselfFail(P.CopyTree(t, p + [names[0]], d + [names[0]], true).value, p, d, names[1..], x);
    }
  }

  lemma CopyFinished(t: Tree, p: Path, target: Path, recursive: bool, overwrite: bool)
    requires WellFormed(t)
    ensures P.PlainCopy(t, p, target, recursive, overwrite).Some? <==> CanCopy(t, p, target, recursive, overwrite)
    ensures P.PlainCopy(t, p, target, recursive, overwrite).Some? ==>
              Copied(t, P.PlainCopy(t, p, target, recursive, overwrite).value, p, LandsAt(t, p, target))
  {
    hide Copied, Mirrored, Shallow, P.CopyTree;
    ParentMade(t, target);
    if RoomAt(t, target) {
      var u := P.MakeParent(t, target).value;
      var d := LandsAt(t, p, target);
      assert P.DestinationFor(u, p, target) == d;
      assert (d in t <==> d in u) && d != [] && Parent(d) in u && u[Parent(d)].Dir?;
      AboveParent(t, d);
      AboveParent(t, target);
      CopyAfterDirs(t, u, p, d, recursive, Parent(target));
    }
  }

  lemma CopyAfterDirs(t: Tree, u: Tree, p: Path, d: Path, recursive: bool, dir: Path)
    requires WellFormed(t) && WellFormed(u) && WithDirs(t, u, dir) && dir < d && Parent(d) in u && u[Parent(d)].Dir?
    requires forall q | q in t && q < d :: t[q].Dir?
    ensures P.CopyTree(Without(u, d), p, d, recursive).Some? <==>
              p in t && Apart(p, d) && (t[p].Dir? ==> recursive && Shallow(t, p))
    ensures P.CopyTree(Without(u, d), p, d, recursive).Some? ==>
              Copied(t, P.CopyTree(Without(u, d), p, d, recursive).value, p, d)
  {
    hide P.CopyTree;
    var w := Without(u, d);
    WithoutWellFormed(u, d);
    assert CanCreate(w, d) by {
      assert !(d <= Parent(d));
    }
    if d <= p {
      AbsentSource(w, p, d, recursive);
    } else if p < d {
      SourceAbove(t, w, u, p, d, recursive);
    } else {
      CopyDone(w, p, d, recursive);
      assert p in u && p !in t ==> p <= dir && p < d;
      BelowUnchanged(t, w, u, p, d, dir);
      if P.CopyTree(w, p, d, recursive).Some? {
        CopiedAfterDirs(t, u, P.CopyTree(w, p, d, recursive).value, p, d, dir);
      }
    }
  }

  lemma AbsentSource(t: Tree, p: Path, d: Path, recursive: bool)
    requires p !in t
    ensures P.CopyTree(t, p, d, recursive).None?
  {}

  lemma SourceAbove(t: Tree, w: Tree, u: Tree, p: Path, d: Path, recursive: bool)
    requires WellFormed(w) && p < d && w == Without(u, d) && Parent(d) in w && w[Parent(d)].Dir? && d != []
    ensures P.CopyTree(w, p, d, recursive).None?
  {
    assert p <= Parent(d);
    AncestorIn(w, Parent(d), p);
    CopyIntoItselfFails(w, p, d, recursive);
  }

  lemma BelowUnchanged(t: Tree, w: Tree, u: Tree, p: Path, d: Path, dir: Path)
    requires WithDirs(t, u, dir) && dir < d && Apart(p, d) && w == Without(u, d)
    ensures SameBelow(t, w, p)
    ensures p in w <==> p in t
    ensures p in t ==> w[p] == t[p] && (Shallow(w, p) <==> Shallow(t, p))
  {
    forall q | (q in u || q in t) && p <= q
      ensures !(d <= q) && (q in u && q !in t ==> false)
    {
      ApartBelow(p, d, q);
      assert q <= dir ==> p <= d;
    }
    SameBelowShallow(t, w, p);
  }

  lemma CopiedAfterDirs(t: Tree, u: Tree, v: Tree, p: Path, d: Path, dir: Path)
    requires WithDirs(t, u, dir) && dir < d && Apart(p, d) && p in t && Mirrored(Without(u, d), v, p, d)
    requires SameBelow(t, Without(u, d), p)
    ensures Copied(t, v, p, d)
  {
    hide Apart;
    forall q | q in v && d <= q
      ensures p + q[|d|..] in t
    {
      assert p <= p + q[|d|..];
    }
    forall q | q in t && p <= q
      ensures d + q[|p|..] in v && v[d + q[|p|..]] == t[q]
    {
      assert q in Without(u, d);
    }
    assert SameElsewhere(t, v, d);
  }
}
