/** The dependency graph of one query, its paths and cycles, and the reference search for a cycle. */
module DependencyGraphs {
  import opened Text
  import opened Catalogs

  /** A query fixes the edges: those of a user-named root count as root edges, wherever it is met. */
  datatype Graph = Graph(catalog: Catalog, host: Host, filter: EdgeFilter, roots: set<string>)

  function Names(g: Graph): set<string> {
    g.catalog.byName.Keys
  }

  function EdgeList(g: Graph, u: string): seq<Edge> {
    match Get(g.catalog, u)
    case None => []
    case Some(f) =>
      match Edges(f, g.host)
      case None => []
      case Some(es) => es
  }

  predicate Included(g: Graph, u: string, i: nat) {
    i < |EdgeList(g, u)| && g.filter.Includes(EdgeList(g, u)[i].tags, u in g.roots)
  }

  /** The edge at `i` is selected and leads to a formula of the catalog. */
  predicate Kept(g: Graph, u: string, i: nat) {
    Included(g, u, i) && Get(g.catalog, EdgeList(g, u)[i].name).Some?
  }

  function Target(g: Graph, u: string, i: nat): string
    requires Kept(g, u, i)
  {
    Get(g.catalog, EdgeList(g, u)[i].name).value.name
  }

  ghost predicate EdgeTo(g: Graph, u: string, i: nat, v: string) {
    Kept(g, u, i) && Target(g, u, i) == v
  }

  ghost predicate Next(g: Graph, u: string, v: string) {
    exists i: nat :: EdgeTo(g, u, i, v)
  }

  /** Every selected edge of the formula resolves. */
  predicate Resolved(g: Graph, u: string) {
    && Get(g.catalog, u).Some? && Edges(Get(g.catalog, u).value, g.host).Some?
    && forall i | 0 <= i < |EdgeList(g, u)| && Included(g, u, i) :: Kept(g, u, i)
  }

  ghost predicate Closed(g: Graph) {
    ValidCatalog(g.catalog) && forall u | u in Names(g) :: Resolved(g, u)
  }

  lemma NextIsNamed(g: Graph, u: string, v: string)
    requires ValidCatalog(g.catalog) && Next(g, u, v)
    ensures v in Names(g)
  {}

  // ----- paths and cycles -----

  ghost predicate StepAt(g: Graph, p: seq<string>, i: nat)
    requires i + 1 < |p|
  {
    Next(g, p[i], p[i + 1])
  }

  ghost predicate IsPath(g: Graph, p: seq<string>) {
    p != [] && forall i: nat | i + 1 < |p| :: StepAt(g, p, i)
  }

  lemma PathSlice(g: Graph, p: seq<string>, lo: nat, hi: nat)
    requires IsPath(g, p) && lo < hi <= |p|
    ensures IsPath(g, p[lo..hi])
  {
    var q := p[lo..hi];
    forall i: nat | i + 1 < |q|
      ensures StepAt(g, q, i)
    {
      assert StepAt(g, p, lo + i) && q[i] == p[lo + i] && q[i + 1] == p[lo + i + 1];
    }
  }

  lemma PathJoin(g: Graph, p: seq<string>, q: seq<string>)
    requires IsPath(g, p) && q != [] && Next(g, p[|p| - 1], q[0]) && IsPath(g, q)
    ensures IsPath(g, p + q)
  {
    hide Next;
    var r := p + q;
    forall i: nat | i + 1 < |r|
      ensures StepAt(g, r, i)
    {
      if i + 1 < |p| {
        assert StepAt(g, p, i);
      } else if i >= |p| {
        assert StepAt(g, q, i - |p|) && r[i] == q[i - |p|] && r[i + 1] == q[i + 1 - |p|];
      }
    }
  }

  lemma PathEnd(g: Graph, p: seq<string>)
    requires IsPath(g, p) && |p| > 1
    ensures IsPath(g, p[..|p| - 1]) && Next(g, p[|p| - 2], p[|p| - 1])
  {
    PathSlice(g, p, 0, |p| - 1);
    assert p[0..|p| - 1] == p[..|p| - 1];
    assert StepAt(g, p, |p| - 2);
  }

  /** A path from `u` to `v`, the trivial one included. */
  ghost predicate PathFromTo(g: Graph, p: seq<string>, u: string, v: string) {
    IsPath(g, p) && p[0] == u && p[|p| - 1] == v
  }

  ghost predicate Reaches(g: Graph, u: string, v: string) {
    exists p :: PathFromTo(g, p, u, v)
  }

  /** Reaches by at least one edge. */
  ghost predicate ReachesOn(g: Graph, u: string, v: string) {
    exists p :: |p| > 1 && PathFromTo(g, p, u, v)
  }

  ghost predicate Reachable(g: Graph, v: string) {
    exists r | r in g.roots :: Reaches(g, r, v)
  }

  ghost predicate IsCycle(g: Graph, c: seq<string>) {
    |c| > 1 && IsPath(g, c) && c[0] == c[|c| - 1]
  }

  ghost predicate ReachesCycle(g: Graph, u: string) {
    exists c :: IsCycle(g, c) && Reaches(g, u, c[0])
  }

  lemma ReachesSelf(g: Graph, u: string)
    ensures Reaches(g, u, u)
  {
    assert PathFromTo(g, [u], u, u);
  }

  lemma ReachesStep(g: Graph, u: string, v: string, w: string)
    requires Reaches(g, u, v) && Next(g, v, w)
    ensures Reaches(g, u, w) && ReachesOn(g, u, w)
  {
    var p :| PathFromTo(g, p, u, v);
    PathJoin(g, p, [w]);
    assert PathFromTo(g, p + [w], u, w);
  }

  lemma ReachableStep(g: Graph, v: string, w: string)
    requires Reachable(g, v) && Next(g, v, w)
    ensures Reachable(g, w)
  {
    var r :| r in g.roots && Reaches(g, r, v);
    ReachesStep(g, r, v, w);
  }

  ghost predicate ClosedUnderNext(g: Graph, s: set<string>) {
    forall u, v | u in s && Next(g, u, v) :: v in s
  }

  /** A set that follows all edges holds everything its members reach. */
  lemma {:induction false} ClosedHoldsPaths(g: Graph, s: set<string>, p: seq<string>)
    requires ClosedUnderNext(g, s) && IsPath(g, p) && p[0] in s
    ensures forall i | 0 <= i < |p| :: p[i] in s
    decreases |p|
  {
    if |p| > 1 {
      var front := p[..|p| - 1];
      PathEnd(g, p);
      ClosedHoldsPaths(g, s, front);
      assert front[|p| - 2] == p[|p| - 2];
    }
  }

  // ----- children in order -----

  function ChildrenFrom(g: Graph, u: string, i: nat): seq<string>
    decreases |EdgeList(g, u)| - i
  {
    if i >= |EdgeList(g, u)| then []
    else if Kept(g, u, i) then [Target(g, u, i)] + ChildrenFrom(g, u, i + 1)
    else ChildrenFrom(g, u, i + 1)
  }

  function Children(g: Graph, u: string): seq<string> {
    ChildrenFrom(g, u, 0)
  }

  lemma {:induction false} ChildrenFromExact(g: Graph, u: string, i: nat, v: string)
    ensures v in ChildrenFrom(g, u, i) <==> exists k: nat :: i <= k && EdgeTo(g, u, k, v)
    decreases |EdgeList(g, u)| - i
  {
    if i < |EdgeList(g, u)| {
      ChildrenFromExact(g, u, i + 1, v);
      if v in ChildrenFrom(g, u, i) {
        if Kept(g, u, i) && v == Target(g, u, i) {
          assert EdgeTo(g, u, i, v);
        }
      }
    }
  }

  lemma ChildrenExact(g: Graph, u: string, v: string)
    ensures v in Children(g, u) <==> Next(g, u, v)
  {
    ChildrenFromExact(g, u, 0, v);
  }

  lemma ChildrenAreNamed(g: Graph, u: string)
    requires ValidCatalog(g.catalog)
    ensures forall v | v in Children(g, u) :: v in Names(g)
  {
    forall v | v in Children(g, u)
      ensures v in Names(g)
    {
      ChildrenExact(g, u, v);
      NextIsNamed(g, u, v);
    }
  }

  // ----- the reference search: depth first, nothing remembered but the path -----

  ghost predicate Distinct(p: seq<string>) {
    forall i, j | 0 <= i < j < |p| :: p[i] != p[j]
  }

  function Position(p: seq<string>, v: string): (i: nat)
    requires v in p
    ensures i < |p| && p[i] == v
    ensures v !in p[..i]
  {
    if p[0] == v then 0
    else
      assert p[1..][..Position(p[1..], v)] == p[1..Position(p[1..], v) + 1];
      1 + Position(p[1..], v)
  }

  /** The cycle that `v` closes on the path. */
  function CycleAt(path: seq<string>, v: string): seq<string>
    requires v in path
  {
    path[Position(path, v)..] + [v]
  }

  function Off(g: Graph, path: seq<string>): set<string> {
    set n | n in Names(g) && n !in path
  }

  /** The first cycle met below the last node of the path, going through `children` in order. */
  function HuntAll(g: Graph, path: seq<string>, children: seq<string>): Option<seq<string>>
    requires ValidCatalog(g.catalog) && forall v | v in children :: v in Names(g)
    decreases |Off(g, path)|, |children|
  {
    if children == [] then None
    else if children[0] in path then Some(CycleAt(path, children[0]))
    else
      match Hunt(g, path, children[0])
      case Some(c) => Some(c)
      case None => HuntAll(g, path, children[1..])
  }

  function Hunt(g: Graph, path: seq<string>, v: string): Option<seq<string>>
    requires ValidCatalog(g.catalog) && v in Names(g) && v !in path
    decreases |Off(g, path)|, 0
  {
    OffShrinks(g, path, v);
    ChildrenAreNamed(g, v);
    HuntAll(g, path + [v], Children(g, v))
  }

  lemma OffShrinks(g: Graph, path: seq<string>, v: string)
    requires v in Names(g) && v !in path
    ensures Off(g, path + [v]) == Off(g, path) - {v}
    ensures |Off(g, path + [v])| < |Off(g, path)|
  {}

  /** Closing the path at a node on it gives a cycle that the start of the path reaches. */
  lemma ClosingCycle(g: Graph, path: seq<string>, v: string)
    requires IsPath(g, path) && v in path && Next(g, path[|path| - 1], v)
    ensures var c := CycleAt(path, v); IsCycle(g, c) && Reaches(g, path[0], c[0])
  {
    hide Next;
    var i := Position(path, v);
    PathSlice(g, path, i, |path|);
    assert path[i..|path|] == path[i..];
    assert path[i..][|path| - i - 1] == path[|path| - 1];
    PathJoin(g, path[i..], [v]);
    PathSlice(g, path, 0, i + 1);
    assert PathFromTo(g, path[0..i + 1], path[0], v);
  }

  /** What the search returns is a cycle that the start of the path reaches. */
  lemma {:induction false} HuntAllFinds(g: Graph, path: seq<string>, children: seq<string>)
    requires ValidCatalog(g.catalog) && IsPath(g, path)
    requires forall v | v in children :: v in Names(g) && Next(g, path[|path| - 1], v)
    requires HuntAll(g, path, children).Some?
    ensures var c := HuntAll(g, path, children).value; IsCycle(g, c) && Reaches(g, path[0], c[0])
    decreases |Off(g, path)|, |children|
  {
    var v := children[0];
    if v in path {
      assert v in children;
      ClosingCycle(g, path, v);
    } else if Hunt(g, path, v).Some? {
      OffShrinks(g, path, v);
      ChildrenAreNamed(g, v);
      forall w | w in Children(g, v)
        ensures Next(g, v, w)
      {
        ChildrenExact(g, v, w);
      }
      PathJoin(g, path, [v]);
      HuntAllFinds(g, path + [v], Children(g, v));
    } else {
      HuntAllFinds(g, path, children[1..]);
    }
  }

  /** Where the search finds nothing, every child is off the path and finds nothing itself. */
  lemma {:induction false} HuntAllQuiet(g: Graph, path: seq<string>, children: seq<string>, v: string)
    requires ValidCatalog(g.catalog) && forall w | w in children :: w in Names(g)
    requires HuntAll(g, path, children).None? && v in children
    ensures v !in path && Hunt(g, path, v).None?
    decreases |children|
  {
    if v != children[0] {
      HuntAllQuiet(g, path, children[1..], v);
    }
  }

  /** Where the search finds nothing, no path from its start ever repeats a node. */
  lemma {:induction false} QuietPathsDistinct(g: Graph, p: seq<string>)
    requires ValidCatalog(g.catalog) && IsPath(g, p) && p[0] in Names(g) && Hunt(g, [], p[0]).None?
    ensures Distinct(p) && p[|p| - 1] in Names(g)
    ensures p[|p| - 1] !in p[..|p| - 1] && Hunt(g, p[..|p| - 1], p[|p| - 1]).None?
    decreases |p|
  {
    hide Hunt, Next;
    if |p| == 1 {
      assert p[..0] == [];
    } else {
      var front, u, v := p[..|p| - 1], p[|p| - 2], p[|p| - 1];
      PathEnd(g, p);
      QuietPathsDistinct(g, front);
      QuietStep(g, front[..|front| - 1], u, v);
      assert front[..|front| - 1] + [u] == front;
      DistinctLonger(front, v);
      assert p == front + [v];
    }
  }

  lemma DistinctLonger(p: seq<string>, v: string)
    requires Distinct(p) && v !in p
    ensures Distinct(p + [v])
  {}

  lemma QuietStep(g: Graph, path: seq<string>, u: string, v: string)
    requires ValidCatalog(g.catalog) && u in Names(g) && u !in path && Hunt(g, path, u).None? && Next(g, u, v)
    ensures v in Names(g) && v !in path + [u] && Hunt(g, path + [u], v).None?
  {
    ChildrenExact(g, u, v);
    ChildrenAreNamed(g, u);
    HuntAllQuiet(g, path + [u], Children(g, u), v);
  }

  lemma HuntFinds(g: Graph, r: string)
    requires ValidCatalog(g.catalog) && r in Names(g) && Hunt(g, [], r).Some?
    ensures var c := Hunt(g, [], r).value; IsCycle(g, c) && Reaches(g, r, c[0])
  {
    ChildrenAreNamed(g, r);
    forall w | w in Children(g, r)
      ensures Next(g, r, w)
    {
      ChildrenExact(g, r, w);
    }
    assert [] + [r] == [r];
    HuntAllFinds(g, [r], Children(g, r));
  }

  /** Going round a cycle that a formula reaches repeats a node. */
  lemma CycleRepeats(g: Graph, r: string, c: seq<string>) returns (q: seq<string>)
    requires IsCycle(g, c) && Reaches(g, r, c[0])
    ensures IsPath(g, q) && q[0] == r && !Distinct(q)
  {
    hide Next;
    var p :| PathFromTo(g, p, r, c[0]);
    assert StepAt(g, c, 0);
    PathSlice(g, c, 1, |c|);
    assert c[1..|c|] == c[1..];
    PathJoin(g, p, c[1..]);
    q := p + c[1..];
    assert q[|p| - 1] == c[0] && q[|q| - 1] == c[|c| - 1];
  }

  /** The search from a formula finds a cycle exactly when the formula reaches one. */
  lemma HuntExact(g: Graph, r: string)
    requires ValidCatalog(g.catalog) && r in Names(g)
    ensures Hunt(g, [], r).Some? <==> ReachesCycle(g, r)
  {
    hide Next, Distinct, Hunt;
    if Hunt(g, [], r).Some? {
      HuntFinds(g, r);
    }
    if c :| IsCycle(g, c) && Reaches(g, r, c[0]) {
      var q := CycleRepeats(g, r, c);
      if Hunt(g, [], r).None? {
        QuietPathsDistinct(g, q);
      }
    }
  }
}
