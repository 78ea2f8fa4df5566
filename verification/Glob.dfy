/** Glob expansion against a file tree, component by component. */
module Globs {
  import opened Text
  import opened FileTree
  import opened FileSystems
  import opened Wildcards

  predicate HasWildcard(text: string) {
    '*' in text || '?' in text || '[' in text
  }

  predicate ComponentMatches(text: string, name: string) {
    if HasWildcard(text) then Matches(text, name) else text == name
  }

  /** A pattern without `*`, `?` and `[` means itself. */
  lemma {:induction false} LiteralMeansItself(pattern: string, text: string)
    requires forall c | c in pattern :: c !in {'*', '?', '['}
    ensures Glob(pattern, text) <==> pattern == text
    decreases |pattern|
  {
    if pattern != [] {
      assert pattern[0] in pattern;
      if text != [] {
        assert forall c | c in pattern[1..] :: c in pattern;
        LiteralMeansItself(pattern[1..], text[1..]);
        assert pattern == [pattern[0]] + pattern[1..] && text == [text[0]] + text[1..];
      }
    }
  }

  /** A component with any of the three is a pattern; on a plain name every component matches what it means. */
  lemma ComponentMeaning(text: string, name: string)
    ensures HasWildcard(text) <==> exists c | c in text :: c in {'*', '?', '['}
    ensures Closed(text) && '*' !in name && '[' !in name ==> (ComponentMatches(text, name) <==> Glob(text, name))
  {
    if !HasWildcard(text) {
      LiteralMeansItself(text, name);
    } else if Closed(text) && '*' !in name && '[' !in name {
      MatchesIsGlob(text, name);
    }
  }

  /** What an expansion is meant to list: the paths of the tree that match componentwise. */
  predicate PathMatches(pattern: Path, p: Path) {
    |p| == |pattern| && forall i | 0 <= i < |p| :: ComponentMatches(pattern[i], p[i])
  }

  // ----- the expansion as a function of the tree -----

  function Matching(text: string, names: seq<string>): (ms: seq<string>)
    ensures forall n :: n in ms <==> n in names && Matches(text, n)
  {
    if names == [] then []
    else
      var last := names[|names| - 1];
      Matching(text, names[..|names| - 1]) + (if Matches(text, last) then [last] else [])
  }

  function Children(dir: Path, names: seq<string>): (ps: seq<Path>)
    ensures |ps| == |names| && forall i | 0 <= i < |ps| :: ps[i] == dir + [names[i]]
  {
    seq(|names|, i requires 0 <= i < |names| => dir + [names[i]])
  }

  /** The next candidates below one candidate. */
  function Extend(t: Tree, candidate: Path, text: string): Option<seq<Path>> {
    if HasWildcard(text) then
      if candidate !in t then Some([])
      else
        match Listing(t, candidate)
        case None => None
        case Some(names) => Some(Children(candidate, Matching(text, names)))
    else if candidate + [text] in t then Some([candidate + [text]])
    else Some([])
  }

  function ExtendAll(t: Tree, candidates: seq<Path>, text: string): Option<seq<Path>> {
    if candidates == [] then Some([])
    else
      match ExtendAll(t, candidates[..|candidates| - 1], text)
      case None => None
      case Some(before) =>
        match Extend(t, candidates[|candidates| - 1], text)
        case None => None
        case Some(last) => Some(before + last)
  }

  lemma {:induction false} ExtendAllFails(t: Tree, candidates: seq<Path>, text: string, i: nat)
    requires i <= |candidates| && ExtendAll(t, candidates[..i], text).None?
    ensures ExtendAll(t, candidates, text).None?
    decreases |candidates|
  {
    if i < |candidates| {
      assert candidates[..|candidates| - 1][..i] == candidates[..i];
      ExtendAllFails(t, candidates[..|candidates| - 1], text, i);
    } else {
      assert candidates[..i] == candidates;
    }
  }

  function Walk(t: Tree, candidates: seq<Path>, pattern: Path): Option<seq<Path>>
    decreases |pattern|
  {
    if pattern == [] then Some(candidates)
    else
      match ExtendAll(t, candidates, pattern[0])
      case None => None
      case Some(next) => Walk(t, next, pattern[1..])
  }

  /** The paths a pattern stands for, or `None` when a directory on the way cannot be read. */
  function Expand(t: Tree, pattern: Path): Option<seq<Path>> {
    if forall text | text in pattern :: !HasWildcard(text) then
      Some(if pattern in t then [pattern] else [])
    else Walk(t, [[]], pattern)
  }

  // ----- the loops -----

  method ExpandGlob(fs: FileSystem, pattern: Path) returns (paths: Option<seq<Path>>)
    ensures paths.Some? ==> paths == Expand(fs.tree, pattern)
    ensures fs.reliable ==> paths == Expand(fs.tree, pattern)
  {
    if forall text | text in pattern :: !HasWildcard(text) {
      return Some(if pattern in fs.tree then [pattern] else []);
    }
    hide ExtendAll;
    var candidates: seq<Path> := [[]];
    var i := 0;
    assert pattern[0..] == pattern;
    while i < |pattern|
      invariant 0 <= i <= |pattern|
      invariant Walk(fs.tree, candidates, pattern[i..]) == Expand(fs.tree, pattern)
    {
      assert pattern[i..][1..] == pattern[i + 1..];
      var next := NextCandidates(fs, candidates, pattern[i]);
      if next.None? {
        return None;
      }
      candidates := next.value;
      i := i + 1;
    }
    paths := Some(candidates);
  }

  method NextCandidates(fs: FileSystem, candidates: seq<Path>, text: string) returns (next: Option<seq<Path>>)
    ensures next.Some? ==> next == ExtendAll(fs.tree, candidates, text)
    ensures fs.reliable ==> next == ExtendAll(fs.tree, candidates, text)
  {
    hide Extend;
    var found: seq<Path> := [];
    var i := 0;
    while i < |candidates|
      invariant 0 <= i <= |candidates|
      invariant ExtendAll(fs.tree, candidates[..i], text) == Some(found)
    {
      assert candidates[..i + 1][..i] == candidates[..i];
      var extended := ExtendCandidate(fs, candidates[i], text);
      if extended.None? {
        if Extend(fs.tree, candidates[i], text).None? {
          ExtendAllFails(fs.tree, candidates, text, i + 1);
        }
        return None;
      }
      found := found + extended.value;
      i := i + 1;
    }
    assert candidates[..i] == candidates;
    next := Some(found);
  }

  method ExtendCandidate(fs: FileSystem, candidate: Path, text: string) returns (extended: Option<seq<Path>>)
    ensures extended.Some? ==> extended == Extend(fs.tree, candidate, text)
    ensures fs.reliable ==> extended == Extend(fs.tree, candidate, text)
  {
    if HasWildcard(text) {
      if candidate !in fs.tree {
        return Some([]);
      }
      var names := fs.ReadDir(candidate);
      if names.None? {
        return None;
      }
      var matching := KeepMatching(text, names.value);
      return Some(Children(candidate, matching));
    }
    var child := candidate + [text];
    return Some(if child in fs.tree then [child] else []);
  }

  method KeepMatching(text: string, names: seq<string>) returns (kept: seq<string>)
    ensures kept == Matching(text, names)
  {
    hide Matches;
    kept := [];
    var i := 0;
    while i < |names|
      invariant 0 <= i <= |names|
      invariant kept == Matching(text, names[..i])
    {
      assert names[..i + 1][..i] == names[..i];
      var matches := WildcardMatch(text, names[i]);
      if matches {
        kept := kept + [names[i]];
      }
      i := i + 1;
    }
    assert names[..i] == names;
  }

  // ----- what an expansion lists -----

  lemma ExtendExact(t: Tree, candidate: Path, text: string, p: Path)
    requires WellFormed(t) && Extend(t, candidate, text).Some?
    ensures p in Extend(t, candidate, text).value <==>
            p in t && p != [] && Parent(p) == candidate && ComponentMatches(text, Base(p))
  {
    hide Matches;
    if p != [] && Parent(p) == candidate {
      assert p == candidate + [Base(p)];
    }
    if HasWildcard(text) && candidate in t {
      var names := Listing(t, candidate).value;
      ChildrenHold(candidate, Matching(text, names), p);
    }
  }

  lemma ChildrenHold(dir: Path, names: seq<string>, p: Path)
    ensures p in Children(dir, names) <==> p != [] && Parent(p) == dir && Base(p) in names
  {
    var ps := Children(dir, names);
    if p in ps {
      var i :| 0 <= i < |ps| && ps[i] == p;
      assert names[i] in names;
    }
    if p != [] && Parent(p) == dir && Base(p) in names {
      var i :| 0 <= i < |names| && names[i] == Base(p);
      assert p == dir + [names[i]] == ps[i];
    }
  }

  lemma {:induction false} ExtendAllExact(t: Tree, candidates: seq<Path>, text: string, p: Path)
    requires WellFormed(t) && ExtendAll(t, candidates, text).Some?
    ensures p in ExtendAll(t, candidates, text).value <==>
            p in t && p != [] && Parent(p) in candidates && ComponentMatches(text, Base(p))
  {
    hide Extend, ComponentMatches;
    if candidates != [] {
      var front, last := candidates[..|candidates| - 1], candidates[|candidates| - 1];
      ExtendExact(t, last, text, p);
      ExtendAllExact(t, front, text, p);
      assert candidates == front + [last];
    }
  }

  /** Paths of the tree that extend some candidate by components matching the pattern. */
  ghost predicate Reaches(candidates: seq<Path>, pattern: Path, p: Path) {
    |p| >= |pattern| && p[..|p| - |pattern|] in candidates && PathMatches(pattern, p[|p| - |pattern|..])
  }

  lemma PathMatchesHead(pattern: Path, suffix: Path)
    requires pattern != [] && |suffix| == |pattern|
    ensures PathMatches(pattern, suffix) <==>
            ComponentMatches(pattern[0], suffix[0]) && PathMatches(pattern[1..], suffix[1..])
  {}

  lemma {:induction false} WalkExact(t: Tree, candidates: seq<Path>, pattern: Path, p: Path)
    requires WellFormed(t) && Walk(t, candidates, pattern).Some? && pattern != []
    ensures p in Walk(t, candidates, pattern).value <==> p in t && Reaches(candidates, pattern, p)
    decreases |pattern|
  {
    hide PathMatches, ComponentMatches, ExtendAll;
    var next := ExtendAll(t, candidates, pattern[0]).value;
    if |p| >= |pattern| {
      var k := |p| - |pattern|;
      var q := p[..k + 1];
      ExtendAllExact(t, candidates, pattern[0], q);
      assert Parent(q) == p[..k] && Base(q) == p[k];
      if p in t {
        AncestorIn(t, p, q);
      }
      PathMatchesHead(pattern, p[k..]);
      assert p[k..][1..] == p[k + 1..];
    } else if |p| + 1 == |pattern| {
      ExtendAllExact(t, candidates, pattern[0], []);
      assert p[..0] == [];
    }
    if |pattern| == 1 {
      LastComponent(t, candidates, pattern, p);
    } else {
      WalkExact(t, next, pattern[1..], p);
    }
  }

  lemma LastComponent(t: Tree, candidates: seq<Path>, pattern: Path, p: Path)
    requires WellFormed(t) && |pattern| == 1 && ExtendAll(t, candidates, pattern[0]).Some?
    ensures p in ExtendAll(t, candidates, pattern[0]).value <==> p in t && Reaches(candidates, pattern, p)
  {
    hide ComponentMatches, ExtendAll;
    ExtendAllExact(t, candidates, pattern[0], p);
    if p != [] {
      assert p[|p| - 1..] == [Base(p)];
    }
  }

  /** An expansion lists exactly the paths of the tree that match componentwise. */
  lemma ExpandExact(t: Tree, pattern: Path, p: Path)
    requires WellFormed(t) && Expand(t, pattern).Some?
    ensures p in Expand(t, pattern).value <==> p in t && PathMatches(pattern, p)
  {
    if forall text | text in pattern :: !HasWildcard(text) {
      if PathMatches(pattern, p) {
        assert forall i | 0 <= i < |p| :: pattern[i] in pattern && pattern[i] == p[i];
        assert p == pattern;
      }
      assert forall i | 0 <= i < |pattern| :: pattern[i] in pattern;
    } else {
      WalkExact(t, [[]], pattern, p);
      if |p| == |pattern| {
        assert p[..0] == [] && p[0..] == p;
      } else if |p| > |pattern| {
        assert p[..|p| - |pattern|] != [];
      }
    }
  }

  // ----- when a pattern can be expanded -----

  /** Whatever the components before a wildcard lead to is a directory that can be opened. */
  ghost predicate ReadableFrom(t: Tree, pattern: Path, k: nat) {
    forall j, q | k <= j < |pattern| && HasWildcard(pattern[j]) && q in t && PathMatches(pattern[..j], q) ::
      t[q].Dir? && |q| <= MAX_DEPTH
  }

  lemma {:induction false} ExtendAllReadable(t: Tree, candidates: seq<Path>, text: string)
    requires forall c | c in candidates :: c in t
    ensures ExtendAll(t, candidates, text).Some? <==>
            HasWildcard(text) ==> forall c | c in candidates :: t[c].Dir? && |c| <= MAX_DEPTH
  {
    if candidates != [] {
      var front, last := candidates[..|candidates| - 1], candidates[|candidates| - 1];
      ExtendAllReadable(t, front, text);
      assert last in candidates && forall c | c in candidates :: c in front || c == last;
    }
  }

  lemma {:induction false} WalkReadable(t: Tree, candidates: seq<Path>, pattern: Path, k: nat)
    requires WellFormed(t) && k <= |pattern|
    requires forall p :: p in candidates <==> p in t && PathMatches(pattern[..k], p)
    ensures Walk(t, candidates, pattern[k..]).Some? <==> ReadableFrom(t, pattern, k)
    decreases |pattern| - k
  {
    if k < |pattern| {
      hide PathMatches, ComponentMatches, ExtendAll;
      ExtendAllReadable(t, candidates, pattern[k]);
      assert pattern[k..][0] == pattern[k] && pattern[k..][1..] == pattern[k + 1..];
      ReadableHere(t, candidates, pattern, k);
      if ExtendAll(t, candidates, pattern[k]).Some? {
        var next := ExtendAll(t, candidates, pattern[k]).value;
        forall p
          ensures p in next <==> p in t && PathMatches(pattern[..k + 1], p)
        {
          ExtendAllExact(t, candidates, pattern[k], p);
          MatchesLonger(t, pattern, k, p);
        }
        WalkReadable(t, next, pattern, k + 1);
      }
    }
  }

  lemma ReadableHere(t: Tree, candidates: seq<Path>, pattern: Path, k: nat)
    requires k < |pattern| && forall p :: p in candidates <==> p in t && PathMatches(pattern[..k], p)
    ensures ReadableFrom(t, pattern, k) <==>
              && ReadableFrom(t, pattern, k + 1)
              && (HasWildcard(pattern[k]) ==> forall c | c in candidates :: t[c].Dir? && |c| <= MAX_DEPTH)
  {
    hide PathMatches;
  }

  lemma MatchesLonger(t: Tree, pattern: Path, k: nat, p: Path)
    requires WellFormed(t) && k < |pattern|
    ensures p in t && PathMatches(pattern[..k + 1], p) <==>
            p != [] && p in t && PathMatches(pattern[..k], Parent(p)) && ComponentMatches(pattern[k], Base(p)) && Parent(p) in t
  {
    hide ComponentMatches;
    var longer := pattern[..k + 1];
    assert longer[k] == pattern[k] && forall i | 0 <= i < k :: longer[i] == pattern[..k][i];
    if p != [] && PathMatches(pattern[..k], Parent(p)) && ComponentMatches(pattern[k], Base(p)) {
      forall i | 0 <= i < |p|
        ensures ComponentMatches(longer[i], p[i])
      {
        assert i < k ==> Parent(p)[i] == p[i];
      }
    }
    if PathMatches(longer, p) {
      forall i | 0 <= i < k
        ensures ComponentMatches(pattern[..k][i], Parent(p)[i])
      {
        assert ComponentMatches(longer[i], p[i]);
      }
    }
  }

  /** A pattern can be expanded exactly if all directories it has to look into can be opened. */
  lemma ExpandReadable(t: Tree, pattern: Path)
    requires WellFormed(t)
    ensures Expand(t, pattern).Some? <==> ReadableFrom(t, pattern, 0)
  {
    if forall text | text in pattern :: !HasWildcard(text) {
      assert forall j | 0 <= j < |pattern| :: pattern[j] in pattern;
    } else {
      assert pattern[..0] == [] && pattern[0..] == pattern;
      WalkReadable(t, [[]], pattern, 0);
    }
  }

  // ----- the order of an expansion -----

  /** At the first component where they differ, the first path has the smaller name. */
  ghost predicate PathBefore(p: Path, q: Path) {
    |p| == |q| && exists k :: 0 <= k < |p| && p[..k] == q[..k] && p[k] != q[k] && LexLe(p[k], q[k])
  }

  ghost predicate Ascending(ps: seq<Path>) {
    forall i, j | 0 <= i < j < |ps| :: PathBefore(ps[i], ps[j])
  }

  lemma BeforeExtended(p: Path, q: Path, x: string, y: string)
    requires PathBefore(p, q)
    ensures PathBefore(p + [x], q + [y])
  {
    var k :| 0 <= k < |p| && p[..k] == q[..k] && p[k] != q[k] && LexLe(p[k], q[k]);
    assert (p + [x])[..k] == p[..k] && (q + [y])[..k] == q[..k];
  }

  lemma BeforeAtEnd(p: Path, x: string, y: string)
    requires x != y && LexLe(x, y)
    ensures PathBefore(p + [x], p + [y])
  {
    assert (p + [x])[..|p|] == p == (p + [y])[..|p|];
    assert (p + [x])[|p|] == x && (p + [y])[|p|] == y;
  }

  /** The children listed below one candidate ascend, and each is the candidate and one name more. */
  lemma ExtendAscends(t: Tree, candidate: Path, text: string)
    requires Extend(t, candidate, text).Some?
    ensures Ascending(Extend(t, candidate, text).value)
    ensures forall i | 0 <= i < |Extend(t, candidate, text).value| ::
              exists x :: Extend(t, candidate, text).value[i] == candidate + [x]
  {
    hide PathBefore, Matches;
    if HasWildcard(text) && candidate in t {
      var names := Listing(t, candidate).value;
      MatchingSorted(text, names);
      var kept := Matching(text, names);
      var children := Children(candidate, kept);
      forall i, j | 0 <= i < j < |children|
        ensures PathBefore(children[i], children[j])
      {
        BeforeAtEnd(candidate, kept[i], kept[j]);
      }
    }
  }

  lemma {:induction false} ExtendAllAscends(t: Tree, candidates: seq<Path>, text: string)
    requires ExtendAll(t, candidates, text).Some? && Ascending(candidates)
    ensures Ascending(ExtendAll(t, candidates, text).value)
    ensures forall i | 0 <= i < |ExtendAll(t, candidates, text).value| ::
              exists k, x | 0 <= k < |candidates| :: ExtendAll(t, candidates, text).value[i] == candidates[k] + [x]
  {
    hide Extend, PathBefore;
    if candidates != [] {
      var front, last := candidates[..|candidates| - 1], candidates[|candidates| - 1];
      ExtendAllAscends(t, front, text);
      ExtendAscends(t, last, text);
      var before, more := ExtendAll(t, front, text).value, Extend(t, last, text).value;
      forall i, j | 0 <= i < |before| && 0 <= j < |more|
        ensures PathBefore(before[i], more[j])
      {
        var k, x :| 0 <= k < |front| && before[i] == front[k] + [x];
        var y :| more[j] == last + [y];
        BeforeExtended(candidates[k], last, x, y);
      }
      AscendingConcat(before, more);
      forall i | 0 <= i < |before + more|
        ensures exists k, x | 0 <= k < |candidates| :: (before + more)[i] == candidates[k] + [x]
      {
        if i < |before| {
          var k, x :| 0 <= k < |front| && before[i] == front[k] + [x];
          assert (before + more)[i] == candidates[k] + [x];
        } else {
          var y :| more[i - |before|] == last + [y];
          assert (before + more)[i] == candidates[|candidates| - 1] + [y];
        }
      }
    }
  }

  lemma AscendingConcat(a: seq<Path>, b: seq<Path>)
    requires Ascending(a) && Ascending(b)
    requires forall i, j | 0 <= i < |a| && 0 <= j < |b| :: PathBefore(a[i], b[j])
    ensures Ascending(a + b)
  {
    hide PathBefore;
  }

  lemma {:induction false} WalkAscends(t: Tree, candidates: seq<Path>, pattern: Path)
    requires Walk(t, candidates, pattern).Some? && Ascending(candidates)
    ensures Ascending(Walk(t, candidates, pattern).value)
    decreases |pattern|
  {
    if pattern != [] {
      ExtendAllAscends(t, candidates, pattern[0]);
      WalkAscends(t, ExtendAll(t, candidates, pattern[0]).value, pattern[1..]);
    }
  }

  /** An expansion comes in ascending order without duplicates, so sorting it at the end changes nothing. */
  lemma ExpandAscends(t: Tree, pattern: Path)
    requires Expand(t, pattern).Some?
    ensures Ascending(Expand(t, pattern).value)
  {
    hide ExtendAll;
    if exists text | text in pattern :: HasWildcard(text) {
      WalkAscends(t, [[]], pattern);
    }
  }

  // ----- expansions that stay clear of one directory -----

  /** Some component of the pattern tells every match apart from `j`. */
  ghost predicate Avoids(pattern: Path, j: Path) {
    exists i | 0 <= i < |pattern| && i < |j| :: !ComponentMatches(pattern[i], j[i])
  }

  lemma AvoidedIsApart(pattern: Path, j: Path, p: Path)
    requires Avoids(pattern, j) && PathMatches(pattern, p)
    ensures Apart(p, j)
  {}

  lemma {:induction false} MatchingSorted(text: string, names: seq<string>)
    requires StrictlySorted(names)
    ensures StrictlySorted(Matching(text, names))
  {
    hide Matches;
    if names != [] {
      var front := names[..|names| - 1];
      MatchingSorted(text, front);
      var before := Matching(text, front);
      assert forall i | 0 <= i < |before| :: before[i] in front;
    }
  }

  /** Extending a candidate lists the same with and without `j`, when `j` itself does not match. */
  lemma ExtendOutside(t: Tree, candidate: Path, text: string, j: Path)
    requires Apart(candidate, j) || (|candidate| < |j| && (candidate + [text] == j ==> HasWildcard(text)))
    requires !Apart(candidate, j) && |candidate| + 1 == |j| ==> !ComponentMatches(text, j[|candidate|])
    ensures Extend(Without(t, j), candidate, text) == Extend(t, candidate, text)
  {
    if Apart(candidate, j) {
      ListingOutside(t, candidate, j);
      ApartBelow(candidate, j, candidate + [text]);
    } else {
      assert !(j <= candidate);
      var u := Without(t, j);
      if HasWildcard(text) && candidate in t && Listing(t, candidate).Some? {
        var a, b := Listing(t, candidate).value, Listing(u, candidate).value;
        MatchingSorted(text, a);
        MatchingSorted(text, b);
        forall n
          ensures n in Matching(text, a) <==> n in Matching(text, b)
        {
          assert j <= candidate + [n] ==> j == candidate + [n];
        }
        SortedIsUnique(Matching(text, a), Matching(text, b));
      } else if !HasWildcard(text) {
        assert j <= candidate + [text] ==> j == candidate + [text];
      }
    }
  }

  /** Candidates found for the first `k` components. */
  ghost predicate Level(candidates: seq<Path>, pattern: Path, k: nat)
    requires k <= |pattern|
  {
    forall c | c in candidates :: PathMatches(pattern[..k], c)
  }

  lemma LevelExtends(t: Tree, candidate: Path, pattern: Path, k: nat)
    requires k < |pattern| && PathMatches(pattern[..k], candidate) && Extend(t, candidate, pattern[k]).Some?
    ensures Level(Extend(t, candidate, pattern[k]).value, pattern, k + 1)
  {}

  lemma CandidateOutside(t: Tree, candidate: Path, pattern: Path, k: nat, j: Path)
    requires k < |pattern| && PathMatches(pattern[..k], candidate) && Avoids(pattern, j)
    ensures Extend(Without(t, j), candidate, pattern[k]) == Extend(t, candidate, pattern[k])
  {
    var i :| 0 <= i < |pattern| && i < |j| && !ComponentMatches(pattern[i], j[i]);
    if i < k {
      assert pattern[..k][i] == pattern[i];
      assert candidate[i] != j[i];
    } else if !Apart(candidate, j) {
      assert candidate <= j;
      if k + 1 == |j| {
        assert i == k;
      }
      assert candidate + [pattern[k]] == j ==> j[k] == pattern[k];
    }
    ExtendOutside(t, candidate, pattern[k], j);
  }

  lemma {:induction false} ExtendAllOutside(t: Tree, candidates: seq<Path>, pattern: Path, k: nat, j: Path)
    requires k < |pattern| && Level(candidates, pattern, k) && Avoids(pattern, j)
    ensures ExtendAll(Without(t, j), candidates, pattern[k]) == ExtendAll(t, candidates, pattern[k])
    ensures ExtendAll(t, candidates, pattern[k]).Some? ==>
            Level(ExtendAll(t, candidates, pattern[k]).value, pattern, k + 1)
    decreases |candidates|
  {
    hide Extend, PathMatches, Avoids, Without;
    if candidates != [] {
      var front, last := candidates[..|candidates| - 1], candidates[|candidates| - 1];
      assert last in candidates;
      CandidateOutside(t, last, pattern, k, j);
      ExtendAllOutside(t, front, pattern, k, j);
      if Extend(t, last, pattern[k]).Some? {
        LevelExtends(t, last, pattern, k);
      }
    }
  }

  lemma {:induction false} WalkOutside(t: Tree, candidates: seq<Path>, pattern: Path, k: nat, j: Path)
    requires k <= |pattern| && Level(candidates, pattern, k) && Avoids(pattern, j)
    ensures Walk(Without(t, j), candidates, pattern[k..]) == Walk(t, candidates, pattern[k..])
    decreases |pattern| - k
  {
    if k < |pattern| {
      assert pattern[k..][0] == pattern[k] && pattern[k..][1..] == pattern[k + 1..];
      ExtendAllOutside(t, candidates, pattern, k, j);
      if ExtendAll(t, candidates, pattern[k]).Some? {
        WalkOutside(t, ExtendAll(t, candidates, pattern[k]).value, pattern, k + 1, j);
      }
    }
  }

  /** A pattern that avoids `j` expands to the same paths with and without it, all apart from it. */
  lemma ExpandOutside(t: Tree, pattern: Path, j: Path)
    requires WellFormed(t) && Avoids(pattern, j)
    ensures Expand(Without(t, j), pattern) == Expand(t, pattern)
    ensures Expand(t, pattern).Some? ==> forall p | p in Expand(t, pattern).value :: Apart(p, j)
  {
    if forall text | text in pattern :: !HasWildcard(text) {
      assert forall i | 0 <= i < |pattern| :: pattern[i] in pattern;
      assert PathMatches(pattern, pattern);
      AvoidedIsApart(pattern, j, pattern);
    } else {
      assert pattern[0..] == pattern;
      WalkOutside(t, [[]], pattern, 0, j);
    }
    if Expand(t, pattern).Some? {
      forall p | p in Expand(t, pattern).value
        ensures Apart(p, j)
      {
        ExpandExact(t, pattern, p);
        AvoidedIsApart(pattern, j, p);
      }
    }
  }
}
