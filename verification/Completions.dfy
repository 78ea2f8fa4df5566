/** Relative links to completion files, and whether a link leads to its managed source. */
module Completions {
  import opened Text
  import opened FileTree
  import opened FileSystems

  // ----- paths as text -----

  const UP: string := ".."

  /** A component of a path; `..` is one, `.` is dropped when a path is taken apart. */
  predicate IsComponent(c: string) {
    c != "" && c != "." && '/' !in c
  }

  predicate IsPath(p: Path) {
    forall i | 0 <= i < |p| :: IsComponent(p[i])
  }

  function Kept(parts: seq<string>): Path {
    if parts == [] then []
    else Kept(parts[..|parts| - 1]) + if parts[|parts| - 1] in ["", "."] then [] else [parts[|parts| - 1]]
  }

  /** The components of a path, without empty ones and dots. */
  function Components(s: string): Path {
    Kept(Split(s, '/'))
  }

  predicate IsAbsolute(s: string) {
    s != "" && s[0] == '/'
  }

  /** A relative path; the empty one is a dot. */
  function Spelled(p: Path): string {
    if p == [] then "." else Join(p, '/')
  }

  lemma {:induction false} KeptAll(parts: seq<string>)
    requires IsPath(parts)
    ensures Kept(parts) == parts
  {
    if parts != [] {
      KeptAll(parts[..|parts| - 1]);
    }
  }

  /** A relative path is read back as the components it was spelled from. */
  lemma SpellingIsRead(p: Path)
    requires IsPath(p)
    ensures Components(Spelled(p)) == p && !IsAbsolute(Spelled(p))
  {
    if p == [] {
      assert Split(".", '/') == ["."];
      assert Kept(["."]) == [] by {
        assert ["."][..0] == [];
      }
    } else {
      SplitJoin(p, '/');
      KeptAll(p);
      assert Spelled(p)[0] == p[0][0];
      assert p[0][0] in p[0];
    }
  }

  // ----- normalizing -----

  /** Removes each `..` with the component before it; None above the root. */
  function NormalizeFrom(stack: Path, p: Path): Option<Path>
    decreases p
  {
    if p == [] then Some(stack)
    else if p[0] == UP then if stack == [] then None else NormalizeFrom(stack[..|stack| - 1], p[1..])
    else NormalizeFrom(stack + [p[0]], p[1..])
  }

  function Normalized(p: Path): Option<Path> {
    NormalizeFrom([], p)
  }

  /** The pushes and pops of `normalize`. */
  method Normalize(p: Path) returns (normalized: Option<Path>)
    ensures normalized == Normalized(p)
  {
    var stack: Path := [];
    for i := 0 to |p|
      invariant Normalized(p) == NormalizeFrom(stack, p[i..])
    {
      assert p[i..][1..] == p[i + 1..];
      if p[i] == UP {
        if stack == [] {
          return None;
        }
        stack := stack[..|stack| - 1];
      } else {
        stack := stack + [p[i]];
      }
    }
    return Some(stack);
  }

  lemma {:induction false} NormalizeAppend(stack: Path, p: Path, q: Path)
    ensures NormalizeFrom(stack, p + q)
         == var mid := NormalizeFrom(stack, p); if mid.Some? then NormalizeFrom(mid.value, q) else None
    decreases p
  {
    if p == [] {
      assert p + q == q;
    } else {
      assert (p + q)[0] == p[0] && (p + q)[1..] == p[1..] + q;
      if p[0] == UP {
        if stack != [] {
          NormalizeAppend(stack[..|stack| - 1], p[1..], q);
        }
      } else {
        NormalizeAppend(stack + [p[0]], p[1..], q);
      }
    }
  }

  function Ups(n: nat): (p: Path)
    ensures |p| == n && IsPath(p) && forall i | 0 <= i < n :: p[i] == UP
  {
    seq(n, _ => UP)
  }

  predicate Upless(p: Path) {
    forall i | 0 <= i < |p| :: p[i] != UP
  }

  function CountUps(p: Path): nat {
    if p == [] then 0 else (if p[0] == UP then 1 else 0) + CountUps(p[1..])
  }

  /** How deep a normalized path is depends only on how many components and how many `..` there are. */
  lemma {:induction false} NormalizedDepth(stack: Path, p: Path)
    ensures NormalizeFrom(stack, p).Some? ==> |NormalizeFrom(stack, p).value| == |stack| + |p| - 2 * CountUps(p)
    decreases p
  {
    if p != [] {
      if p[0] == UP {
        if stack != [] {
          NormalizedDepth(stack[..|stack| - 1], p[1..]);
        }
      } else {
        NormalizedDepth(stack + [p[0]], p[1..]);
      }
    }
  }

  lemma {:induction false} CountAppend(p: Path, q: Path)
    ensures CountUps(p + q) == CountUps(p) + CountUps(q)
  {
    if p == [] {
      assert p + q == q;
    } else {
      assert (p + q)[0] == p[0] && (p + q)[1..] == p[1..] + q;
      CountAppend(p[1..], q);
    }
  }

  lemma {:induction false} CountOfUps(n: nat)
    ensures CountUps(Ups(n)) == n
  {
    if n > 0 {
      assert Ups(n)[1..] == Ups(n - 1);
      CountOfUps(n - 1);
    }
  }

  lemma {:induction false} NoUpsCount(p: Path)
    ensures CountUps(p) == 0 <==> Upless(p)
  {
    if p != [] {
      NoUpsCount(p[1..]);
      assert Upless(p) <==> p[0] != UP && Upless(p[1..]) by {
        assert forall i | 0 < i < |p| :: p[i] == p[1..][i - 1];
      }
    }
  }

  /** Going down plain components and up as often again comes back. */
  lemma {:induction false} DownAndUp(stack: Path, p: Path)
    requires Upless(p)
    ensures NormalizeFrom(stack, p + Ups(|p|)) == Some(stack)
    decreases p
  {
    if p == [] {
      assert p + Ups(0) == [];
    } else {
      var up := Ups(|p|);
      assert (p + up)[0] == p[0];
      assert (p + up)[1..] == (p[1..] + Ups(|p| - 1)) + [UP];
      DownAndUp(stack + [p[0]], p[1..]);
      NormalizeAppend(stack + [p[0]], p[1..] + Ups(|p| - 1), [UP]);
      assert (stack + [p[0]])[..|stack|] == stack;
      assert [UP][1..] == [];
    }
  }

  // ----- the relative path -----

  function Common(a: Path, b: Path): (n: nat)
    ensures n <= |a| && n <= |b| && a[..n] == b[..n] && (n < |a| && n < |b| ==> a[n] != b[n])
  {
    if a != [] && b != [] && a[0] == b[0] then
      var n := Common(a[1..], b[1..]);
      assert a[..n + 1] == [a[0]] + a[1..][..n] && b[..n + 1] == [b[0]] + b[1..][..n];
      n + 1
    else 0
  }

  /** Up out of what is not common, then down to the target. */
  function Relative(target: Path, from: Path): Path {
    var n := Common(from, target);
    Ups(|from| - n) + target[n..]
  }

  lemma CommonIs(a: Path, b: Path, n: nat)
    requires n <= |a| && n <= |b| && a[..n] == b[..n] && (n < |a| && n < |b| ==> a[n] != b[n])
    ensures Common(a, b) == n
  {}

  /** Counts the common components, then pushes. */
  method RelativePathFrom(target: Path, link: Path) returns (spelled: Option<string>)
    requires IsPath(target)
    ensures spelled == if link == [] then None else Some(Spelled(Relative(target, Parent(link))))
  {
    if link == [] {
      return None;
    }
    var from := Parent(link);
    var common := 0;
    while common < |from| && common < |target| && from[common] == target[common]
      invariant common <= |from| && common <= |target| && from[..common] == target[..common]
    {
      common := common + 1;
    }
    CommonIs(from, target, common);
    var result := PushRest(target, |from|, common);
    return Some(Spelled(result));
  }

  /** One `..` for each component of the link's directory that is left, then what the target has left. */
  method PushRest(target: Path, depth: nat, common: nat) returns (result: Path)
    requires common <= depth && common <= |target|
    ensures result == Ups(depth - common) + target[common..]
  {
    result := [];
    for i := common to depth
      invariant result == Ups(i - common)
    {
      result := result + [UP];
    }
    for i := common to |target|
      invariant result == Ups(depth - common) + target[common..i]
    {
      hide Ups;
      assert target[common..i + 1] == target[common..i] + [target[i]];
      result := result + [target[i]];
    }
    assert target[common..|target|] == target[common..];
  }

  // ----- when a link leads to its source -----

  /** Whether the text of a link at `link` leads, read lexically, to `target`. */
  predicate Matches(link: Path, text: string, target: Path)
    requires link != []
  {
    var joined := if IsAbsolute(text) then Components(text) else Parent(link) + Components(text);
    Normalized(joined).Some? && Normalized(joined) == Normalized(target)
  }

  /** The link made for a target leads to it exactly if the target stays below the root and the part of the
      link's directory that is not common with the target has no `..`. */
  lemma LinkLeadsBack(link: Path, target: Path)
    requires link != [] && IsPath(target)
    ensures var from := Parent(link);
            Matches(link, Spelled(Relative(target, from)), target) <==>
            Normalized(target).Some? && Upless(from[Common(from, target)..])
  {
    hide Spelled, Components, IsAbsolute, NormalizeFrom, Upless, CountUps, Relative;
    var from := Parent(link);
    var n := Common(from, target);
    RelativeShape(target, from);
    RelativeIsPath(target, from);
    SpellingIsRead(Relative(target, from));
    if Upless(from[n..]) {
      UplessMeets(from[..n], from[n..], target[n..]);
    } else {
      DepthsDiffer(from[..n], from[n..], target[n..]);
    }
  }

  /** From the link's directory: the common part, down and up the rest, then on to the target. */
  lemma RelativeShape(target: Path, from: Path)
    ensures var n := Common(from, target);
            && target == from[..n] + target[n..]
            && from + Relative(target, from) == from[..n] + ((from[n..] + Ups(|from[n..]|)) + target[n..])
  {
    hide Ups, Common;
    var n := Common(from, target);
    var base, rest, tail := from[..n], from[n..], target[n..];
    TakeDrop(from, n);
    TakeDrop(target, n);
    assert |rest| == |from| - n;
    var up := Ups(|rest|);
    assert Relative(target, from) == up + tail;
    Regroup(base, rest, up, tail);
  }

  lemma TakeDrop(p: Path, n: nat)
    requires n <= |p|
    ensures p == p[..n] + p[n..]
  {}

  lemma Regroup(a: Path, b: Path, c: Path, d: Path)
    ensures (a + b) + (c + d) == a + ((b + c) + d)
  {}

  lemma RelativeIsPath(target: Path, from: Path)
    requires IsPath(target)
    ensures IsPath(Relative(target, from))
  {}

  /** Without `..` in the rest the detour through it makes no difference. */
  lemma UplessMeets(base: Path, rest: Path, tail: Path)
    requires Upless(rest)
    ensures Normalized(base + ((rest + Ups(|rest|)) + tail)) == Normalized(base + tail)
  {
    hide NormalizeFrom, Upless;
    NormalizeAppend([], base, (rest + Ups(|rest|)) + tail);
    NormalizeAppend([], base, tail);
    var normalized := Normalized(base);
    if normalized.Some? {
      NormalizeAppend(normalized.value, rest + Ups(|rest|), tail);
      DownAndUp(normalized.value, rest);
    }
  }

  /** Each `..` in the rest puts the link's reading two levels off. */
  lemma DepthsDiffer(base: Path, rest: Path, tail: Path)
    requires !Upless(rest)
    ensures var joined := base + ((rest + Ups(|rest|)) + tail);
            Normalized(joined).Some? ==> Normalized(joined) != Normalized(base + tail)
  {
    var joined := base + ((rest + Ups(|rest|)) + tail);
    NoUpsCount(rest);
    NormalizedDepth([], joined);
    NormalizedDepth([], base + tail);
    CountAppend(base, (rest + Ups(|rest|)) + tail);
    CountAppend(rest + Ups(|rest|), tail);
    CountAppend(rest, Ups(|rest|));
    CountOfUps(|rest|);
    CountAppend(base, tail);
  }

  lemma {:induction false} UplessNormalizes(stack: Path, p: Path)
    requires Upless(p)
    ensures NormalizeFrom(stack, p) == Some(stack + p)
    decreases p
  {
    if p == [] {
      assert stack + p == stack;
    } else {
      assert Upless(p[1..]) by {
        assert forall i | 0 <= i < |p[1..]| :: p[1..][i] == p[i + 1];
      }
      UplessNormalizes(stack + [p[0]], p[1..]);
      assert stack + p == (stack + [p[0]]) + p[1..];
    }
  }

  /** Between paths without `..` the link always leads back, and joining and normalizing gives the target. */
  lemma PlainLinkLeadsBack(link: Path, target: Path)
    requires link != [] && IsPath(target) && Upless(link) && Upless(target)
    ensures Normalized(Parent(link) + Relative(target, Parent(link))) == Some(target)
    ensures Matches(link, Spelled(Relative(target, Parent(link))), target)
  {
    hide Spelled, Components, IsAbsolute, NormalizeFrom;
    var from := Parent(link);
    LinkLeadsBack(link, target);
    UplessNormalizes([], target);
    assert [] + target == target;
    SpellingIsRead(Relative(target, from));
    assert forall i | 0 <= i < |from| - Common(from, target) ::
             from[Common(from, target)..][i] == link[Common(from, target) + i];
  }

  /** A directory written with `..` breaks it: the link from `/a/../x` to `/b` reads as outside the root. */
  lemma UpInLinkBreaks()
    ensures !Matches(["a", UP, "x"], Spelled(Relative(["b"], ["a", UP])), ["b"])
  {
    var link := ["a", UP, "x"];
    assert Parent(link) == ["a", UP];
    assert IsComponent("b");
    LinkLeadsBack(link, ["b"]);
    assert Common(["a", UP], ["b"]) == 0 by {
      assert "a"[0] != "b"[0];
    }
    assert ["a", UP][0..][1] == UP;
  }

  // ----- linking -----

  datatype ManagedFile = ManagedFile(source: Path, destination: Path)

  /** A link made for this file leads back to its source. */
  predicate LeadsBack(file: ManagedFile) {
    && file.destination != [] && IsPath(file.source) && Normalized(file.source).Some?
    && Upless(Parent(file.destination)[Common(Parent(file.destination), file.source)..])
  }

  predicate IsLinked(t: Tree, file: ManagedFile)
    requires file.destination != []
  {
    && file.destination in t && t[file.destination].Link?
    && Matches(file.destination, t[file.destination].target, file.source)
  }

  predicate CanLink(t: Tree, p: Path) {
    (p in t ==> t[p].Link?) && forall q | q in t && q < p :: t[q].Dir?
  }

  /** Only the entry at `p` and new directories above it may differ. */
  ghost predicate Around(before: Tree, after: Tree, p: Path) {
    && (forall q | q in before && q != p :: q in after && after[q] == before[q])
    && forall q | q in after && q !in before && q != p :: q < p && after[q].Dir?
  }

  /** `create_dir_all` on the parent. */
  method CreateParent(fs: FileSystem, p: Path) returns (ok: bool)
    requires WellFormed(fs.tree) && p != []
    modifies fs`tree
    ensures WellFormed(fs.tree) && Around(old(fs.tree), fs.tree, p)
    ensures p in fs.tree <==> p in old(fs.tree)
    ensures p in fs.tree ==> fs.tree[p] == old(fs.tree)[p]
    ensures ok ==> Parent(p) in fs.tree && fs.tree[Parent(p)].Dir?
    ensures fs.reliable && (forall q | q in old(fs.tree) && q < p :: old(fs.tree)[q].Dir?) ==> ok
  {
    for i := 0 to |p|
      invariant WellFormed(fs.tree) && Around(old(fs.tree), fs.tree, p)
      invariant p in fs.tree <==> p in old(fs.tree)
      invariant p in fs.tree ==> fs.tree[p] == old(fs.tree)[p]
      invariant i > 0 ==> p[..i - 1] in fs.tree && fs.tree[p[..i - 1]].Dir?
    {
      ok := EnsureDir(fs, p, i, p[..i]);
      if !ok {
        return;
      }
    }
    assert p[..|p| - 1] == Parent(p);
    ok := true;
  }

  method EnsureDir(fs: FileSystem, p: Path, i: nat, dir: Path) returns (ok: bool)
    requires i < |p| && dir == p[..i]
    requires WellFormed(fs.tree) && (i > 0 ==> p[..i - 1] in fs.tree && fs.tree[p[..i - 1]].Dir?)
    modifies fs`tree
    ensures WellFormed(fs.tree)
    ensures fs.tree == old(fs.tree) || (dir !in old(fs.tree) && fs.tree == old(fs.tree)[dir := Dir(NEW_DIR_MODE)])
    ensures ok ==> dir in fs.tree && fs.tree[dir].Dir?
    ensures fs.reliable && (dir in old(fs.tree) ==> old(fs.tree)[dir].Dir?) ==> ok
  {
    if dir in fs.tree {
      return fs.tree[dir].Dir?;
    }
    assert i > 0 ==> Parent(dir) == p[..i - 1];
    DirWellFormed(fs.tree, dir);
    ok := fs.CreateDir(dir);
  }

  lemma DirWellFormed(t: Tree, p: Path)
    requires WellFormed(t) && p != [] && p !in t && Parent(p) in t && t[Parent(p)].Dir?
    ensures CanCreate(t, p) && WellFormed(t[p := Dir(NEW_DIR_MODE)])
  {}

  method CreateSymlink(fs: FileSystem, file: ManagedFile) returns (ok: bool)
    requires WellFormed(fs.tree) && file.destination != [] && IsPath(file.source) && file.destination !in fs.tree
    modifies fs`tree
    ensures WellFormed(fs.tree) && Around(old(fs.tree), fs.tree, file.destination)
    ensures ok ==> file.destination in fs.tree && fs.tree[file.destination]
                   == Link(Spelled(Relative(file.source, Parent(file.destination))))
    ensures fs.reliable && CanLink(old(fs.tree), file.destination) ==> ok
  {
    ok := CreateParent(fs, file.destination);
    if !ok {
      return;
    }
    var text := RelativePathFrom(file.source, file.destination);
    if text.None? {
      return false;
    }
    CreateWellFormed(fs.tree, file.destination, Link(text.value));
    ok := fs.Symlink(text.value, file.destination);
  }

  /** Leaves a link that leads to its source alone and replaces any other link. */
  method LinkOne(fs: FileSystem, file: ManagedFile) returns (ok: bool)
    requires WellFormed(fs.tree) && file.destination != [] && IsPath(file.source)
    modifies fs`tree
    ensures WellFormed(fs.tree) && Around(old(fs.tree), fs.tree, file.destination)
    ensures ok ==> (IsLinked(fs.tree, file) <==> LeadsBack(file) || IsLinked(old(fs.tree), file))
    ensures fs.reliable && CanLink(old(fs.tree), file.destination) ==> ok
  {
    hide Matches, Relative, Spelled, Normalized;
    if file.destination in fs.tree {
      if !fs.tree[file.destination].Link? {
        return false;
      }
      if Matches(file.destination, fs.tree[file.destination].target, file.source) {
        return true;
      }
      LinkRemoved(fs.tree, file.destination);
      ok := fs.RemoveFile(file.destination);
      if !ok {
        return;
      }
    }
    ghost var between := fs.tree;
    ok := CreateSymlink(fs, file);
    LinkLeadsBack(file.destination, file.source);
  }

  // ----- all managed files -----

  predicate Distinct(files: seq<ManagedFile>) {
    forall i, j | 0 <= i < j < |files| :: files[i].destination != files[j].destination
  }

  predicate PrefixFree(files: seq<ManagedFile>) {
    forall i, j | 0 <= i < |files| && 0 <= j < |files| && i != j :: !(files[i].destination <= files[j].destination)
  }

  ghost predicate HaveDestinations(files: seq<ManagedFile>) {
    forall i | 0 <= i < |files| :: files[i].destination != []
  }

  ghost predicate HaveSources(files: seq<ManagedFile>) {
    forall i | 0 <= i < |files| :: IsPath(files[i].source)
  }

  /** The first `n` files are linked, as far as a link can lead back or led back before; the rest is as before. */
  ghost predicate LinkedUpTo(before: Tree, t: Tree, files: seq<ManagedFile>, n: nat)
    requires HaveDestinations(files)
  {
    forall i | 0 <= i < |files| ::
      IsLinked(t, files[i]) <==> (i < n && LeadsBack(files[i])) || IsLinked(before, files[i])
  }

  predicate CanLinkFrom(t: Tree, files: seq<ManagedFile>, n: nat) {
    forall i | n <= i < |files| :: CanLink(t, files[i].destination)
  }

  lemma StaysLinked(before: Tree, after: Tree, p: Path, file: ManagedFile)
    requires Around(before, after, p) && file.destination != [] && file.destination != p
    ensures IsLinked(before, file) <==> IsLinked(after, file)
  {}

  /** Making one link leaves room for a link that is neither above nor below it. */
  lemma StaysLinkable(before: Tree, after: Tree, p: Path, q: Path)
    requires Around(before, after, p) && !(p <= q) && !(q <= p)
    ensures CanLink(before, q) ==> CanLink(after, q)
  {}

  /** Refuses, before touching anything, what cannot be linked. */
  method PreflightLink(fs: FileSystem, files: seq<ManagedFile>) returns (fine: bool)
    ensures fine <==> CanLinkFrom(fs.tree, files, 0)
  {
    for i := 0 to |files|
      invariant forall k | 0 <= k < i :: CanLink(fs.tree, files[k].destination)
    {
      if !CanLink(fs.tree, files[i].destination) {
        return false;
      }
    }
    return true;
  }

  /** Links every file. When that succeeds a file is linked exactly if a link to it can lead back, or one did
      before. With destinations none of which lies above another
      it succeeds unless the preflight refuses or the system fails. */
  method LinkAll(fs: FileSystem, files: seq<ManagedFile>) returns (refused: bool, ok: bool)
    requires WellFormed(fs.tree) && HaveDestinations(files) && HaveSources(files) && Distinct(files)
    modifies fs`tree
    ensures WellFormed(fs.tree)
    ensures refused <==> !CanLinkFrom(old(fs.tree), files, 0)
    ensures refused ==> !ok && fs.tree == old(fs.tree)
    ensures ok ==> forall i | 0 <= i < |files| ::
                     IsLinked(fs.tree, files[i]) <==> LeadsBack(files[i]) || IsLinked(old(fs.tree), files[i])
    ensures forall q | q in old(fs.tree) && (forall i | 0 <= i < |files| :: q != files[i].destination) ::
              q in fs.tree && fs.tree[q] == old(fs.tree)[q]
    ensures forall q | q in fs.tree && q !in old(fs.tree) :: MadeFor(fs.tree, files, q)
    ensures fs.reliable && PrefixFree(files) && !refused ==> ok
  {
    var fine := PreflightLink(fs, files);
    if !fine {
      return true, false;
    }
    refused := false;
    for i := 0 to |files|
      invariant WellFormed(fs.tree) && LinkedUpTo(old(fs.tree), fs.tree, files, i)
      invariant forall q | q in old(fs.tree) && (forall k | 0 <= k < |files| :: q != files[k].destination) ::
                  q in fs.tree && fs.tree[q] == old(fs.tree)[q]
      invariant forall q | q in fs.tree && q !in old(fs.tree) :: MadeFor(fs.tree, files, q)
      invariant PrefixFree(files) ==> CanLinkFrom(fs.tree, files, i)
    {
      hide WellFormed, IsLinked, LeadsBack, CanLink, IsPath;
      ghost var before := fs.tree;
      ok := LinkOne(fs, files[i]);
      StillMadeFor(old(fs.tree), before, fs.tree, files, i);
      if !ok {
        return;
      }
      StillLinkedAndLinkable(old(fs.tree), before, fs.tree, files, i);
    }
    ok := true;
  }

  /** A destination, or a directory above one. */
  ghost predicate MadeFor(t: Tree, files: seq<ManagedFile>, q: Path)
    requires q in t
  {
    exists i | 0 <= i < |files| :: q == files[i].destination || (q < files[i].destination && t[q].Dir?)
  }

  lemma StillMadeFor(first: Tree, before: Tree, after: Tree, files: seq<ManagedFile>, i: nat)
    requires i < |files| && Around(before, after, files[i].destination)
    requires forall q | q in before && q !in first :: MadeFor(before, files, q)
    ensures forall q | q in after && q !in first :: MadeFor(after, files, q)
  {
    forall q | q in after && q !in first
      ensures MadeFor(after, files, q)
    {
      if q in before && q != files[i].destination {
        assert MadeFor(before, files, q);
      }
    }
  }

  lemma StillLinkedAndLinkable(first: Tree, before: Tree, after: Tree, files: seq<ManagedFile>, i: nat)
    requires HaveDestinations(files) && Distinct(files) && i < |files| && Around(before, after, files[i].destination)
    requires LinkedUpTo(first, before, files, i)
    requires IsLinked(after, files[i]) <==> LeadsBack(files[i]) || IsLinked(before, files[i])
    ensures LinkedUpTo(first, after, files, i + 1)
    ensures PrefixFree(files) && CanLinkFrom(before, files, i) ==> CanLinkFrom(after, files, i + 1)
  {
    hide IsLinked, CanLink, Around, LeadsBack;
    forall k | 0 <= k < |files| && k != i
      ensures IsLinked(after, files[k]) <==> IsLinked(before, files[k])
    {
      StaysLinked(before, after, files[i].destination, files[k]);
    }
    if PrefixFree(files) && CanLinkFrom(before, files, i) {
      forall k | i + 1 <= k < |files|
        ensures CanLink(after, files[k].destination)
      {
        StaysLinkable(before, after, files[i].destination, files[k].destination);
      }
    }
  }

  /** Whether every managed file is linked. */
  method AllLinked(fs: FileSystem, files: seq<ManagedFile>) returns (linked: bool)
    requires HaveDestinations(files)
    ensures linked <==> forall i | 0 <= i < |files| :: IsLinked(fs.tree, files[i])
  {
    for i := 0 to |files|
      invariant forall k | 0 <= k < i :: IsLinked(fs.tree, files[k])
    {
      if !IsLinked(fs.tree, files[i]) {
        return false;
      }
    }
    return true;
  }

  // ----- unlinking -----

  /** What disappears is the file's own link and, if nothing else was in it, its directory. */
  ghost predicate Unlinked(before: Tree, after: Tree, file: ManagedFile)
    requires file.destination != []
  {
    && (forall q | q in after :: q in before && after[q] == before[q])
    && forall q | q in before && q !in after ::
         IsLinked(before, file) && (q == file.destination || (q == Parent(file.destination) && before[q].Dir?))
  }

  method UnlinkOne(fs: FileSystem, file: ManagedFile) returns (ok: bool)
    requires WellFormed(fs.tree) && file.destination != []
    modifies fs`tree
    ensures WellFormed(fs.tree) && Unlinked(old(fs.tree), fs.tree, file)
    ensures ok ==> !IsLinked(fs.tree, file)
    ensures fs.reliable ==> ok
  {
    hide Matches;
    if file.destination !in fs.tree || !fs.tree[file.destination].Link? {
      return true;
    }
    if !Matches(file.destination, fs.tree[file.destination].target, file.source) {
      return true;
    }
    LinkRemoved(fs.tree, file.destination);
    ok := fs.RemoveFile(file.destination);
    if ok {
      RemoveEmptyParent(fs, file.destination);
    }
  }

  method RemoveEmptyParent(fs: FileSystem, p: Path)
    requires WellFormed(fs.tree) && p != []
    modifies fs`tree
    ensures WellFormed(fs.tree)
    ensures fs.tree == old(fs.tree)
         || (Parent(p) in old(fs.tree) && old(fs.tree)[Parent(p)].Dir? && fs.tree == old(fs.tree) - {Parent(p)})
  {
    var parent := Parent(p);
    if parent in fs.tree && parent != [] && !HasChildren(fs.tree, parent) {
      EmptyRemoved(fs.tree, parent);
    }
    var removed := fs.RemoveDir(parent);
  }

  ghost predicate IsManagedLink(t: Tree, files: seq<ManagedFile>, q: Path)
    requires HaveDestinations(files)
  {
    exists i | 0 <= i < |files| :: files[i].destination == q && IsLinked(t, files[i])
  }

  /** The directory that a managed link lies in. */
  ghost predicate HeldManagedLink(t: Tree, files: seq<ManagedFile>, q: Path)
    requires HaveDestinations(files)
  {
    exists i | 0 <= i < |files| :: Parent(files[i].destination) == q && IsLinked(t, files[i])
  }

  /** Nothing is added or changed, and only links that led back and directories they lay in disappear. */
  ghost predicate OnlyUnlinked(before: Tree, after: Tree, files: seq<ManagedFile>)
    requires HaveDestinations(files)
  {
    && (forall q | q in after :: q in before && after[q] == before[q])
    && forall q | q in before && q !in after ::
         if before[q].Dir? then HeldManagedLink(before, files, q) else IsManagedLink(before, files, q)
  }

  ghost predicate NoneLinked(t: Tree, files: seq<ManagedFile>, n: nat)
    requires HaveDestinations(files) && n <= |files|
  {
    forall i | 0 <= i < n :: !IsLinked(t, files[i])
  }

  lemma OneMoreUnlinked(first: Tree, before: Tree, after: Tree, files: seq<ManagedFile>, i: nat)
    requires HaveDestinations(files) && i < |files|
    requires OnlyUnlinked(first, before, files) && Unlinked(before, after, files[i])
    ensures OnlyUnlinked(first, after, files)
    ensures NoneLinked(before, files, i) && !IsLinked(after, files[i]) ==> NoneLinked(after, files, i + 1)
  {}

  /** Removes exactly the links that lead to their managed sources, besides directories that this emptied. */
  method UnlinkAll(fs: FileSystem, files: seq<ManagedFile>) returns (ok: bool)
    requires WellFormed(fs.tree) && HaveDestinations(files)
    modifies fs`tree
    ensures WellFormed(fs.tree) && OnlyUnlinked(old(fs.tree), fs.tree, files)
    ensures ok ==> NoneLinked(fs.tree, files, |files|)
    ensures fs.reliable ==> ok
  {
    for i := 0 to |files|
      invariant WellFormed(fs.tree) && OnlyUnlinked(old(fs.tree), fs.tree, files)
      invariant NoneLinked(fs.tree, files, i)
    {
      hide WellFormed, IsLinked, Unlinked, OnlyUnlinked, NoneLinked;
      ghost var before := fs.tree;
      ok := UnlinkOne(fs, files[i]);
      OneMoreUnlinked(old(fs.tree), before, fs.tree, files, i);
      if !ok {
        return;
      }
    }
    ok := true;
  }
}
