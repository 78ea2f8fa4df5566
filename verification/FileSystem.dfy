/** The system calls the crates make, on one mutable tree, any of which may fail at any time. */
module FileSystems {
  import opened Text
  import opened FileTree

  class FileSystem {
    var tree: Tree
    /** Set while no call fails for reasons of its own (permissions, a full disk, an I/O error). */
    var reliable: bool
    /** The commands run so far, and which of all commands that are ever run go through. */
    var issued: seq<string>
    const succeeds: nat -> bool

    constructor (tree: Tree, reliable: bool, succeeds: nat -> bool)
      ensures this.tree == tree && this.reliable == reliable && issued == [] && this.succeeds == succeeds
    {
      this.tree, this.reliable := tree, reliable;
      issued, this.succeeds := [], succeeds;
    }

    predicate GoesThrough(n: nat)
      reads this`reliable
    {
      reliable || succeeds(n)
    }

    /** Commands leave the tree alone. */
    method Issue(command: string) returns (ok: bool)
      modifies `issued
      ensures issued == old(issued) + [command]
      ensures ok == GoesThrough(|old(issued)|)
    {
      ok := GoesThrough(|issued|);
      issued := issued + [command];
    }

    /** Whether a call that could succeed fails all the same. */
    method Fault() returns (fault: bool)
      ensures reliable ==> !fault
    {
      fault := *;
      fault := fault && !reliable;
    }

    /** `fs::create_dir` */
    method CreateDir(p: Path) returns (ok: bool)
      modifies `tree
      ensures ok ==> CanCreate(old(tree), p) && tree == old(tree)[p := Dir(NEW_DIR_MODE)]
      ensures !ok ==> tree == old(tree)
      ensures reliable ==> ok == CanCreate(old(tree), p)
    {
      var fault := Fault();
      ok := !fault && CanCreate(tree, p);
      if ok {
        tree := tree[p := Dir(NEW_DIR_MODE)];
      }
    }

    /** `fs::write`; a failed write may have left a file with part of the content. */
    method WriteFile(p: Path, content: string) returns (ok: bool)
      modifies `tree
      ensures ok ==> CanWrite(old(tree), p) && tree == Written(old(tree), p, content)
      ensures !ok ==> tree == old(tree) ||
                      (CanWrite(old(tree), p) && exists part :: tree == Written(old(tree), p, part))
      ensures reliable ==> ok == CanWrite(old(tree), p)
    {
      var fault := Fault();
      var begun: bool := *;
      var part: string := *;
      ok := !fault && CanWrite(tree, p);
      if ok {
        tree := Written(tree, p, content);
      } else if begun && CanWrite(tree, p) {
        tree := Written(tree, p, part);
      }
    }

    /** `fs::copy` of the regular file at `s` to the free path `d`, mode included. */
    method CopyFile(s: Path, d: Path) returns (ok: bool)
      requires s in tree && tree[s].File?
      modifies `tree
      ensures ok ==> CanCreate(old(tree), d) && tree == old(tree)[d := old(tree)[s]]
      ensures !ok ==> tree == old(tree) ||
                      (CanCreate(old(tree), d) && exists part, mode :: tree == old(tree)[d := File(part, mode)])
      ensures reliable ==> ok == CanCreate(old(tree), d)
    {
      var fault := Fault();
      var begun: bool := *;
      var part: string := *;
      ok := !fault && CanCreate(tree, d);
      if ok {
        tree := tree[d := tree[s]];
      } else if begun && CanCreate(tree, d) {
        tree := tree[d := File(part, tree[s].mode)];
      }
    }

    /** `symlink` */
    method Symlink(target: string, p: Path) returns (ok: bool)
      modifies `tree
      ensures ok ==> CanCreate(old(tree), p) && tree == old(tree)[p := Link(target)]
      ensures !ok ==> tree == old(tree)
      ensures reliable ==> ok == CanCreate(old(tree), p)
    {
      var fault := Fault();
      ok := !fault && CanCreate(tree, p);
      if ok {
        tree := tree[p := Link(target)];
      }
    }

    /** `fs::set_permissions` on an entry that is no symbolic link. */
    method SetMode(p: Path, mode: nat) returns (ok: bool)
      modifies `tree
      ensures ok ==> CanChmod(old(tree), p) && tree == Chmod(old(tree), p, mode)
      ensures !ok ==> tree == old(tree)
      ensures reliable ==> ok == CanChmod(old(tree), p)
    {
      var fault := Fault();
      ok := !fault && CanChmod(tree, p);
      if ok {
        tree := Chmod(tree, p, mode);
      }
    }

    /** `fs::rename` */
    method Rename(s: Path, d: Path) returns (ok: bool)
      modifies `tree
      ensures ok ==> CanRename(old(tree), s, d) && tree == Renamed(old(tree), s, d)
      ensures !ok ==> tree == old(tree)
      ensures reliable ==> ok == CanRename(old(tree), s, d)
    {
      var fault := Fault();
      ok := !fault && CanRename(tree, s, d);
      if ok {
        tree := Renamed(tree, s, d);
      }
    }

    /** `fs::remove_dir_all` or `fs::remove_file`; a failed removal keeps the entry itself but may have
        taken away any part of what lies below it. */
    method RemoveTree(p: Path) returns (ok: bool)
      requires WellFormed(tree)
      modifies `tree
      ensures ok ==> p != [] && p in old(tree) && tree == Without(old(tree), p)
      ensures !ok && p in old(tree) ==> p in tree
      ensures WellFormed(tree) && Thinned(old(tree), tree, p)
      ensures reliable ==> ok == (p != [] && p in old(tree))
    {
      var fault := Fault();
      var gone: set<Path> := *;
      ok := !fault && p != [] && p in tree;
      if ok {
        WithoutWellFormed(tree, p);
        tree := Without(tree, p);
      } else {
        while gone != {}
          invariant WellFormed(tree) && Thinned(old(tree), tree, p)
          invariant p in old(tree) ==> p in tree
          decreases gone
        {
          var g :| g in gone;
          if p < g {
            WithoutWellFormed(tree, g);
            WithoutBelow(tree, p, g);
            tree := Without(tree, g);
          }
          gone := gone - {g};
        }
      }
    }

    /** `fs::remove_file` */
    method RemoveFile(p: Path) returns (ok: bool)
      modifies `tree
      ensures ok ==> p in old(tree) && !old(tree)[p].Dir? && tree == old(tree) - {p}
      ensures !ok ==> tree == old(tree)
      ensures reliable ==> ok == (p in old(tree) && !old(tree)[p].Dir?)
    {
      var fault := Fault();
      ok := !fault && p in tree && !tree[p].Dir?;
      if ok {
        tree := tree - {p};
      }
    }

    /** `fs::remove_dir`, which only removes an empty directory. */
    method RemoveDir(p: Path) returns (ok: bool)
      modifies `tree
      ensures ok ==> p != [] && p in old(tree) && old(tree)[p].Dir? && !HasChildren(old(tree), p)
                     && tree == old(tree) - {p}
      ensures !ok ==> tree == old(tree)
      ensures reliable ==> ok == (p != [] && p in old(tree) && old(tree)[p].Dir? && !HasChildren(old(tree), p))
    {
      var fault := Fault();
      ok := !fault && p != [] && p in tree && tree[p].Dir? && !HasChildren(tree, p);
      if ok {
        tree := tree - {p};
      }
    }

    /** `fs::read_dir`, collected and sorted. */
    method ReadDir(p: Path) returns (names: Option<seq<string>>)
      ensures names.Some? ==> names == Listing(tree, p)
      ensures reliable ==> names == Listing(tree, p)
    {
      var fault := Fault();
      names := if fault then None else Listing(tree, p);
    }

    /** `fs::read_to_string` of a regular file. */
    method ReadFile(p: Path) returns (content: Option<string>)
      ensures content.Some? ==> p in tree && tree[p].File? && tree[p].content == content.value
      ensures reliable ==> content.Some? == (p in tree && tree[p].File?)
    {
      var fault := Fault();
      content := if !fault && p in tree && tree[p].File? then Some(tree[p].content) else None;
    }
  }

  lemma WithoutBelow(t: Tree, p: Path, g: Path)
    requires p <= g
    ensures Without(Without(t, g), p) == Without(t, p)
  {}
}
