/**
  A file tree as a value: a finite map from absolute physical paths to entries. A path is the list of
  its components below the root, so no component is ever a symbolic link that is followed.
 */
module FileTree {
  import opened Text

  type Path = seq<string>

  datatype Node =
    | File(content: string, mode: nat)
    | Dir(mode: nat)
    | Link(target: string)

  type Tree = map<Path, Node>

  /** Modes of newly created entries (what the process umask leaves). */
  const NEW_DIR_MODE: nat := 0x1ed
  const NEW_FILE_MODE: nat := 0x1a4

  /** Opening a directory fails when its path has more components than the system accepts. */
  const MAX_DEPTH: nat := 2048

  function Parent(p: Path): Path
    requires p != []
  {
    p[..|p| - 1]
  }

  function Base(p: Path): string
    requires p != []
  {
    p[|p| - 1]
  }

  /** Neither path lies at or below the other. */
  predicate Apart(p: Path, q: Path) {
    !(p <= q) && !(q <= p)
  }

  lemma ApartBelow(p: Path, q: Path, r: Path)
    requires Apart(p, q) && p <= r
    ensures Apart(r, q)
  {}

  /** Every entry but the root has its parent in the tree, and parents are directories. */
  ghost predicate WellFormed(t: Tree) {
    && [] in t && t[[]].Dir?
    && forall p | p in t && p != [] :: Parent(p) in t && t[Parent(p)].Dir?
  }

  lemma {:induction false} AncestorIn(t: Tree, p: Path, q: Path)
    requires WellFormed(t) && p in t && q <= p
    ensures q in t
    ensures q != p ==> t[q].Dir?
    decreases |p|
  {
    if q != p {
      assert q <= Parent(p);
      AncestorIn(t, Parent(p), q);
    }
  }

  // ----- the primitive changes -----

  /** The tree without the entry at `p` and everything below it. */
  function Without(t: Tree, p: Path): Tree {
    map q | q in t && !(p <= q) :: t[q]
  }

  /** Nothing has changed but that entries at or below `p` may be gone. */
  ghost predicate Thinned(t: Tree, t': Tree, p: Path) {
    && Without(t', p) == Without(t, p)
    && forall q | q in t' :: q in t && t'[q] == t[q]
  }

  predicate CanCreate(t: Tree, p: Path) {
    p != [] && p !in t && Parent(p) in t && t[Parent(p)].Dir?
  }

  predicate CanWrite(t: Tree, p: Path) {
    if p in t then t[p].File? else CanCreate(t, p)
  }

  /** Writing a whole file keeps the mode of an existing one. */
  function Written(t: Tree, p: Path, content: string): Tree {
    t[p := File(content, if p in t && t[p].File? then t[p].mode else NEW_FILE_MODE)]
  }

  predicate CanChmod(t: Tree, p: Path) {
    p in t && !t[p].Link?
  }

  function Chmod(t: Tree, p: Path, mode: nat): Tree
    requires CanChmod(t, p)
  {
    t[p := if t[p].Dir? then Dir(mode) else File(t[p].content, mode)]
  }

  predicate HasChildren(t: Tree, p: Path) {
    exists q | q in t :: q != [] && Parent(q) == p
  }

  /** When renaming `s` to `d` succeeds: a directory never moves into itself, and an entry in the way
      is only replaced when neither is a directory or when both are and `d` is empty. */
  predicate CanRename(t: Tree, s: Path, d: Path) {
    && s != [] && d != [] && s in t && !(s < d)
    && Parent(d) in t && t[Parent(d)].Dir?
    && (d in t ==> if t[s].Dir? then t[d].Dir? && !HasChildren(t, d) else !t[d].Dir?)
  }

  predicate InRenamed(t: Tree, s: Path, d: Path, r: Path) {
    if d <= r then s + r[|d|..] in t else !(s <= r) && r in t
  }

  /** The tree after the subtree at `s` has become the subtree at `d`. */
  function Renamed(t: Tree, s: Path, d: Path): (t': Tree)
    ensures forall r :: r in t' <==> InRenamed(t, s, d, r)
  {
    var keys := t.Keys + (set q | q in t && s <= q :: d + q[|s|..]);
    assert forall r | InRenamed(t, s, d, r) :: r in keys by {
      forall r | InRenamed(t, s, d, r)
        ensures r in keys
      {
        if d <= r {
          var q := s + r[|d|..];
          assert q in t && s <= q && d + q[|s|..] == r;
        }
      }
    }
    map r | r in keys && InRenamed(t, s, d, r) :: if d <= r then t[s + r[|d|..]] else t[r]
  }

  // ----- the primitive changes keep trees well-formed -----

  lemma WithoutWellFormed(t: Tree, p: Path)
    requires WellFormed(t) && p != []
    ensures WellFormed(Without(t, p))
  {}

  lemma CreateWellFormed(t: Tree, p: Path, n: Node)
    requires WellFormed(t) && CanCreate(t, p)
    ensures WellFormed(t[p := n])
  {}

  /** Replacing an entry by one of the same kind. */
  lemma ReplaceWellFormed(t: Tree, p: Path, n: Node)
    requires WellFormed(t) && p in t && (t[p].Dir? <==> n.Dir?)
    ensures WellFormed(t[p := n])
  {}

  lemma LinkRemoved(t: Tree, p: Path)
    requires WellFormed(t) && p in t && !t[p].Dir?
    ensures WellFormed(t - {p})
  {}

  lemma EmptyRemoved(t: Tree, d: Path)
    requires WellFormed(t) && d in t && d != [] && !HasChildren(t, d)
    ensures WellFormed(t - {d})
  {}

  /** The target of a rename is never a proper ancestor of its source. */
  lemma RenameNotUpward(t: Tree, s: Path, d: Path)
    requires WellFormed(t) && CanRename(t, s, d)
    ensures !(d < s)
  {
    if d < s {
      var c := s[..|d| + 1];
      assert Parent(c) == d && c <= s;
      AncestorIn(t, s, c);
    }
  }

  lemma RenameWellFormed(t: Tree, s: Path, d: Path)
    requires WellFormed(t) && CanRename(t, s, d)
    ensures WellFormed(Renamed(t, s, d))
  {
    RenameNotUpward(t, s, d);
    var t' := Renamed(t, s, d);
    forall r | r in t' && r != []
      ensures Parent(r) in t' && t'[Parent(r)].Dir?
    {
      if d <= r {
        RenamedParentMoved(t, s, d, r);
      } else {
        assert !(d <= Parent(r)) && !(s <= Parent(r)) by {
          assert d <= Parent(r) ==> d <= r;
          assert s <= Parent(r) ==> s <= r;
        }
      }
    }
  }

  lemma RenamedParentMoved(t: Tree, s: Path, d: Path, r: Path)
    requires WellFormed(t) && CanRename(t, s, d) && !(d < s) && d <= r && r in Renamed(t, s, d)
    ensures Parent(r) in Renamed(t, s, d) && Renamed(t, s, d)[Parent(r)].Dir?
  {
    if r == d {
      assert !(d <= Parent(d));
      assert s <= Parent(d) ==> s < d;
    } else {
      var q := s + r[|d|..];
      assert d <= Parent(r);
      assert Parent(q) == s + Parent(r)[|d|..];
    }
  }

  lemma RenameBackLegal(t: Tree, s: Path, d: Path)
    requires WellFormed(t) && CanRename(t, s, d) && d !in t
    ensures !(d <= s) && !(s <= d)
    ensures CanRename(Renamed(t, s, d), d, s) && s !in Renamed(t, s, d)
  {
    var u := Renamed(t, s, d);
    assert s + d[|d|..] == s && s != d;
    RenameNotUpward(t, s, d);
    assert !(d <= s) && !(s <= d) by {
      assert d <= s ==> d < s;
      assert s <= d ==> s < d;
    }
    assert !(s <= Parent(s)) && !(d <= Parent(s)) by {
      assert d <= Parent(s) ==> d <= s;
    }
  }

  /** A rename to a free path is undone by the rename back. */
  lemma RenameBack(t: Tree, s: Path, d: Path)
    requires WellFormed(t) && CanRename(t, s, d) && d !in t
    ensures CanRename(Renamed(t, s, d), d, s) && s !in Renamed(t, s, d)
    ensures Renamed(Renamed(t, s, d), d, s) == t
  {
    RenameBackLegal(t, s, d);
    RenameBackEverywhere(t, s, d, Renamed(Renamed(t, s, d), d, s));
  }

  lemma RenameBackEverywhere(t: Tree, s: Path, d: Path, v: Tree)
    requires WellFormed(t) && d !in t && !(d <= s) && !(s <= d)
    requires v == Renamed(Renamed(t, s, d), d, s)
    ensures v == t
  {
    forall r
      ensures r in v <==> r in t
      ensures r in t ==> v[r] == t[r]
    {
      RenameBackAt(t, s, d, r);
    }
  }

  lemma RenameBackAt(t: Tree, s: Path, d: Path, r: Path)
    requires WellFormed(t) && d !in t && !(d <= s) && !(s <= d)
    ensures var v := Renamed(Renamed(t, s, d), d, s); (r in v <==> r in t) && (r in t ==> v[r] == t[r])
  {
    var u := Renamed(t, s, d);
    if s <= r {
      var m := d + r[|s|..];
      assert s + m[|d|..] == r;
      assert d <= m;
    } else if r in t && d <= r {
      AncestorIn(t, r, d);
    }
  }

  // ----- what is outside one subtree -----

  lemma WithoutCommutes(t: Tree, p: Path, j: Path)
    ensures Without(Without(t, p), j) == Without(Without(t, j), p)
  {}

  lemma WithoutUpdate(t: Tree, p: Path, n: Node, j: Path)
    ensures !(j <= p) ==> Without(t[p := n], j) == Without(t, j)[p := n]
    ensures j <= p ==> Without(t[p := n], j) == Without(t, j)
  {}

  /** Renaming into the subtree at `j` looks from outside like a removal. */
  lemma RenameIntoIsRemoval(t: Tree, s: Path, b: Path, j: Path)
    requires j <= b && Apart(s, j)
    ensures Without(Renamed(t, s, b), j) == Without(Without(t, j), s)
  {}

  lemma RenameOutside(t: Tree, s: Path, d: Path, j: Path)
    requires Apart(s, j) && Apart(d, j)
    ensures Without(Renamed(t, s, d), j) == Renamed(Without(t, j), s, d)
  {}

  // ----- directory listings -----

  function ChildNames(t: Tree, p: Path): (names: set<string>)
    ensures forall n :: n in names <==> p + [n] in t
  {
    assert forall n | p + [n] in t :: Parent(p + [n]) == p && Base(p + [n]) == n;
    var names := set q | q in t && q != [] && Parent(q) == p :: Base(q);
    assert forall q | q != [] && Parent(q) == p :: q == p + [Base(q)];
    names
  }

  /** The names in the directory at `p`, in ascending order. */
  function Listing(t: Tree, p: Path): (names: Option<seq<string>>)
    ensures names.Some? ==> StrictlySorted(names.value) && forall n :: n in names.value <==> p + [n] in t
  {
    if p in t && t[p].Dir? && |p| <= MAX_DEPTH then Some(Sorted(ChildNames(t, p))) else None
  }

  lemma ListingOutside(t: Tree, p: Path, j: Path)
    requires Apart(p, j)
    ensures Listing(Without(t, j), p) == Listing(t, p)
  {
    forall n
      ensures n in ChildNames(t, p) <==> n in ChildNames(Without(t, j), p)
    {
      ApartBelow(p, j, p + [n]);
    }
    assert ChildNames(t, p) == ChildNames(Without(t, j), p);
  }
}
