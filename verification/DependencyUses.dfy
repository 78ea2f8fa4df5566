/** Reverse lookup: the formulae that reach every target, and its agreement with expansion. */
module DependencyUses {
  import opened Text
  import opened Catalogs
  import opened DeclaredEdges
  import opened DependencyGraphs
  import opened DependencyExpansion

  /** All formulae that `u` depends on have been reached. */
  ghost predicate Explored(g: Graph, u: string, reached: set<string>) {
    forall v | Next(g, u, v) :: v in reached
  }

  /** What has been met really is below the start, and everything reached counts as visited. */
  ghost predicate Sound(g: Graph, start: string, visited: set<string>, reached: set<string>) {
    && start in visited && reached <= visited && visited <= Names(g)
    && (forall v | v in visited :: Reaches(g, start, v))
    && (forall v | v in reached :: ReachesOn(g, start, v))
  }

  lemma SoundStep(g: Graph, start: string, visited: set<string>, reached: set<string>, u: string, v: string)
    requires ValidCatalog(g.catalog) && Sound(g, start, visited, reached) && u in visited && Next(g, u, v)
    ensures Sound(g, start, visited + {v}, reached + {v})
  {
    hide Next, Reaches, ReachesOn;
    ReachesStep(g, start, u, v);
    NextIsNamed(g, u, v);
  }

  ghost predicate ExploredSince(g: Graph, before: set<string>, visited: set<string>, reached: set<string>) {
    forall u | u in visited && u !in before :: u in reached && Explored(g, u, reached)
  }

  /** The edges before `i` have been followed. */
  ghost predicate FollowedUpTo(g: Graph, u: string, i: nat, reached: set<string>) {
    forall k: nat, v | k < i && EdgeTo(g, u, k, v) :: v in reached
  }

  class Reachability {
    const g: Graph
    var visited: set<string>
    var reached: set<string>

    constructor (g: Graph, start: string)
      ensures this.g == g && visited == {start} && reached == {}
    {
      this.g, visited, reached := g, {start}, {};
    }

    method CollectReachable(current: string, rootEdge: bool, ghost start: string) returns (ok: bool)
      requires ValidCatalog(g.catalog) && Sound(g, start, visited, reached) && current in visited
      requires rootEdge == (current in g.roots) && g.roots == {start}
      modifies this
      ensures ok ==> old(visited) <= visited && old(reached) <= reached && Sound(g, start, visited, reached)
      ensures ok ==> Explored(g, current, reached) && ExploredSince(g, old(visited), visited, reached)
      ensures Closed(g) ==> ok
      decreases Names(g) - visited, 1
    {
      hide Sound, Explored, ExploredSince, Closed, Included, Next;
      CurrentIsNamed(g, start, visited, reached, current);
      if Closed(g) {
        ClosedEdges(g, current);
      }
      var formula := Get(g.catalog, current);
      if formula.None? {
        return false;
      }
      var edges := Edges(formula.value, g.host);
      if edges.None? {
        return false;
      }
      var i: nat := 0;
      NothingExplored(g, visited, reached);
      while i < |edges.value|
        invariant i <= |edges.value|
        invariant old(visited) <= visited && old(reached) <= reached && Sound(g, start, visited, reached)
        invariant FollowedUpTo(g, current, i, reached) && ExploredSince(g, old(visited), visited, reached)
      {
        IncludedIs(g, current, i);
        ghost var before := reached;
        if g.filter.Includes(edges.value[i].tags, rootEdge) {
          ok := FollowEdge(current, i, start, old(visited));
          if !ok {
            return;
          }
        }
        FollowedOne(g, current, i, before, reached);
        i := i + 1;
      }
      FollowedAll(g, current, reached);
      return true;
    }

    method FollowEdge(current: string, i: nat, ghost start: string, ghost before: set<string>) returns (ok: bool)
      requires ValidCatalog(g.catalog) && Sound(g, start, visited, reached) && current in visited
      requires g.roots == {start} && Included(g, current, i) && i < |EdgeList(g, current)|
      requires ExploredSince(g, before, visited, reached)
      modifies this
      ensures ok ==> old(visited) <= visited && old(reached) <= reached && Sound(g, start, visited, reached)
      ensures ok ==> ExploredSince(g, before, visited, reached)
      ensures ok ==> Kept(g, current, i) && Target(g, current, i) in reached
      ensures Closed(g) ==> ok
      decreases Names(g) - visited, 0
    {
      hide Sound, Explored, ExploredSince, Closed, Included, Next;
      CurrentIsNamed(g, start, visited, reached, current);
      if Closed(g) {
        ClosedIsKept(g, current, i);
      }
      var edge := EdgeList(g, current)[i];
      var dependency := Get(g.catalog, edge.name);
      if dependency.None? {
        return false;
      }
      var name := dependency.value.name;
      assert EdgeTo(g, current, i, name);
      NextBy(g, current, i, name);
      SoundStep(g, start, visited, reached, current, name);
      NextIsNamed(g, current, name);
      ReachedGrows(g, before, visited, reached, name);
      if name in visited {
        VisitedAgain(visited, name);
        reached := reached + {name};
        return true;
      }
      reached := reached + {name};
      ghost var middle := visited;
      visited := visited + {name};
      StartIsVisited(g, start, middle, old(reached), name);
      assert name in Names(g) - middle;
      ok := CollectReachable(name, false, start);
      if ok {
        NewlyExplored(g, before, middle, visited, reached, name, old(reached) + {name});
      }
    }
  }

  lemma CurrentIsNamed(g: Graph, start: string, visited: set<string>, reached: set<string>, u: string)
    requires Sound(g, start, visited, reached) && u in visited
    ensures u in Names(g)
  {}

  lemma ClosedEdges(g: Graph, u: string)
    requires Closed(g) && u in Names(g)
    ensures Get(g.catalog, u).Some? && Edges(Get(g.catalog, u).value, g.host).Some?
  {}

  lemma NothingExplored(g: Graph, visited: set<string>, reached: set<string>)
    ensures ExploredSince(g, visited, visited, reached)
  {}

  lemma IncludedIs(g: Graph, u: string, i: nat)
    requires i < |EdgeList(g, u)|
    ensures Included(g, u, i) == g.filter.Includes(EdgeList(g, u)[i].tags, u in g.roots)
  {}

  lemma FollowedOne(g: Graph, u: string, i: nat, before: set<string>, reached: set<string>)
    requires FollowedUpTo(g, u, i, before) && before <= reached
    requires Included(g, u, i) ==> Kept(g, u, i) && Target(g, u, i) in reached
    ensures FollowedUpTo(g, u, i + 1, reached)
  {}

  lemma FollowedAll(g: Graph, u: string, reached: set<string>)
    requires FollowedUpTo(g, u, |EdgeList(g, u)|, reached)
    ensures Explored(g, u, reached)
  {}

  lemma NextBy(g: Graph, u: string, i: nat, v: string)
    requires EdgeTo(g, u, i, v)
    ensures Next(g, u, v)
  {}

  lemma ReachedGrows(g: Graph, before: set<string>, visited: set<string>, reached: set<string>, v: string)
    requires ExploredSince(g, before, visited, reached)
    ensures ExploredSince(g, before, visited, reached + {v})
  {}

  lemma VisitedAgain(visited: set<string>, v: string)
    requires v in visited
    ensures visited + {v} == visited
  {}

  lemma StartIsVisited(g: Graph, start: string, visited: set<string>, reached: set<string>, v: string)
    requires Sound(g, start, visited, reached) && v !in visited
    ensures v != start
  {}

  lemma NewlyExplored(g: Graph, before: set<string>, middle: set<string>, visited: set<string>, reached: set<string>, v: string, reached0: set<string>)
    requires ExploredSince(g, before, middle, reached0) && reached0 <= reached && v in reached0
    requires ExploredSince(g, middle + {v}, visited, reached) && Explored(g, v, reached)
    ensures ExploredSince(g, before, visited, reached)
  {}

  /** Once everything met is explored, the reached set is exactly what the start reaches on. */
  lemma ReachedExact(g: Graph, start: string, visited: set<string>, reached: set<string>, v: string)
    requires Sound(g, start, visited, reached) && Explored(g, start, reached) && ExploredSince(g, {start}, visited, reached)
    ensures v in reached <==> ReachesOn(g, start, v)
  {
    hide Next;
    if ReachesOn(g, start, v) {
      var p :| |p| > 1 && PathFromTo(g, p, start, v);
      forall u, w | u in reached && Next(g, u, w)
        ensures w in reached
      {
        assert u in visited;
        assert Explored(g, u, reached);
      }
      assert StepAt(g, p, 0);
      PathSlice(g, p, 1, |p|);
      ClosedHoldsPaths(g, reached, p[1..|p|]);
      assert p[1..|p|][|p| - 2] == v;
    }
  }

  // ----- the lookup -----

  ghost predicate UniqueNames(c: Catalog) {
    ValidCatalog(c) && forall i | 0 <= i < |c.formulae| :: c.formulae[i].name in c.byName && c.byName[c.formulae[i].name] == i
  }

  /** The candidate depends on all that is sought, directly or through other formulae. */
  ghost predicate DependsOnAll(g: Graph, candidate: string, sought: set<string>, recursive: bool) {
    forall s | s in sought :: if recursive then ReachesOn(g, candidate, s) else Next(g, candidate, s)
  }

  method FormulaReachesAll(g: Graph, candidate: string, sought: set<string>, recursive: bool) returns (all: Option<bool>)
    requires ValidCatalog(g.catalog) && candidate in Names(g) && g.roots == {candidate}
    ensures all.Some? ==> all.value == DependsOnAll(g, candidate, sought, recursive)
    ensures Closed(g) ==> all.Some?
  {
    hide Sound, ExploredSince, Explored, Closed, Next;
    if recursive {
      var search := new Reachability(g, candidate);
      StartIsSound(g, candidate);
      var ok := search.CollectReachable(candidate, true, candidate);
      if !ok {
        return None;
      }
      forall v
        ensures v in search.reached <==> ReachesOn(g, candidate, v)
      {
        ReachedExact(g, candidate, search.visited, search.reached, v);
      }
      return Some(sought <= search.reached);
    }
    var direct := DirectlyReached(g, candidate);
    if direct.None? {
      return None;
    }
    return Some(sought <= direct.value);
  }

  method DirectlyReached(g: Graph, candidate: string) returns (reached: Option<set<string>>)
    requires ValidCatalog(g.catalog) && candidate in Names(g) && g.roots == {candidate}
    ensures reached.Some? ==> forall v :: v in reached.value <==> Next(g, candidate, v)
    ensures Closed(g) ==> reached.Some?
  {
    hide Closed, Included, Next;
    if Closed(g) {
      ClosedEdges(g, candidate);
    }
    var formula := Get(g.catalog, candidate);
    if formula.None? {
      return None;
    }
    var edges := Edges(formula.value, g.host);
    if edges.None? {
      return None;
    }
    var found: set<string> := {};
    var i: nat := 0;
    while i < |edges.value|
      invariant i <= |edges.value|
      invariant FollowedUpTo(g, candidate, i, found) && forall v | v in found :: Next(g, candidate, v)
    {
      IncludedIs(g, candidate, i);
      ghost var before := found;
      if g.filter.Includes(edges.value[i].tags, true) {
        if Closed(g) {
          ClosedIsKept(g, candidate, i);
        }
        var dependency := Get(g.catalog, edges.value[i].name);
        if dependency.None? {
          return None;
        }
        assert EdgeTo(g, candidate, i, dependency.value.name);
        NextBy(g, candidate, i, dependency.value.name);
        found := found + {dependency.value.name};
      }
      FollowedOne(g, candidate, i, before, found);
      i := i + 1;
    }
    FollowedAll(g, candidate, found);
    ExploredHolds(g, candidate, found);
    return Some(found);
  }

  lemma ExploredHolds(g: Graph, u: string, reached: set<string>)
    requires Explored(g, u, reached)
    ensures forall v | Next(g, u, v) :: v in reached
  {}

  lemma StartIsSound(g: Graph, start: string)
    requires start in Names(g)
    ensures Sound(g, start, {start}, {})
  {
    ReachesSelf(g, start);
  }

  function CandidateGraph(c: Catalog, host: Host, filter: EdgeFilter, candidate: string): Graph {
    Graph(c, host, filter, {candidate})
  }

  /** The names of all formulae, targets left out, that depend on every target. */
  ghost predicate IsUses(c: Catalog, host: Host, filter: EdgeFilter, recursive: bool, sought: set<string>, names: seq<string>) {
    && StrictlySorted(names)
    && forall n :: n in names <==>
         n in c.byName && n !in sought && sought != {} && DependsOnAll(CandidateGraph(c, host, filter, n), n, sought, recursive)
  }

  /** The same told from the catalog: by one declared dependency, or by a chain of them. */
  ghost predicate UsesTold(c: Catalog, host: Host, filter: EdgeFilter, recursive: bool, sought: set<string>, names: seq<string>) {
    && StrictlySorted(names)
    && forall n :: n in names <==>
         n in c.byName && n !in sought && sought != {} && LeadsToAll(CandidateGraph(c, host, filter, n), n, sought, recursive)
  }

  ghost predicate LeadsToAll(g: Graph, n: string, sought: set<string>, recursive: bool) {
    forall s | s in sought :: if recursive then LeadsOn(g, n, s) else Depends(g, n, s)
  }

  lemma UsesAreTold(c: Catalog, host: Host, filter: EdgeFilter, recursive: bool, sought: set<string>, names: seq<string>)
    requires IsUses(c, host, filter, recursive, sought, names)
    ensures UsesTold(c, host, filter, recursive, sought, names)
  {
    hide DependsOnAll, LeadsToAll;
    forall n
      ensures DependsOnAll(CandidateGraph(c, host, filter, n), n, sought, recursive) <==>
              LeadsToAll(CandidateGraph(c, host, filter, n), n, sought, recursive)
    {
      DependsIsTold(CandidateGraph(c, host, filter, n), n, sought, recursive);
    }
  }

  lemma DependsIsTold(g: Graph, n: string, sought: set<string>, recursive: bool)
    ensures DependsOnAll(g, n, sought, recursive) <==> LeadsToAll(g, n, sought, recursive)
  {
    hide ReachesOn, LeadsOn, Next, Depends;
    forall s
      ensures ReachesOn(g, n, s) <==> LeadsOn(g, n, s)
      ensures Next(g, n, s) <==> Depends(g, n, s)
    {
      LeadsExact(g, n, s);
      NextExact(g, n, s);
    }
  }

  /** `None` when the host is universal, a target is unknown or an edge does not resolve. */
  method Uses(c: Catalog, targets: seq<string>, host: Host, recursive: bool, filter: EdgeFilter)
    returns (names: Option<seq<string>>)
    requires UniqueNames(c)
    ensures names.Some? ==> !host.AllHosts? && RootNames(c, targets).Some?
    ensures names.Some? ==> IsUses(c, host, filter, recursive, AsSet(RootNames(c, targets).value), names.value)
    ensures names.Some? ==> UsesTold(c, host, filter, recursive, AsSet(RootNames(c, targets).value), names.value)
    ensures !host.AllHosts? && RootNames(c, targets).Some? ==>
              (forall n | n in c.byName :: Closed(CandidateGraph(c, host, filter, n))) ==> names.Some?
  {
    hide DependsOnAll, LeadsToAll, Closed, StrictlySorted;
    if host.AllHosts? {
      return None;
    }
    var roots, missing := ResolveRoots(c, targets);
    if missing.Some? {
      return None;
    }
    var sought := AsSet(roots);
    if sought == {} {
      NothingSorted();
      UsesAreTold(c, host, filter, recursive, sought, []);
      return Some([]);
    }
    var matches: set<string> := {};
    for i := 0 to |c.formulae|
      invariant forall n :: n in matches <==>
        n in c.byName && c.byName[n] < i && n !in sought && DependsOnAll(CandidateGraph(c, host, filter, n), n, sought, recursive)
    {
      var candidate := c.formulae[i].name;
      if candidate !in sought {
        var all := FormulaReachesAll(CandidateGraph(c, host, filter, candidate), candidate, sought, recursive);
        if all.None? {
          return None;
        }
        if all.value {
          matches := matches + {candidate};
        }
      }
    }
    UsesAreTold(c, host, filter, recursive, sought, Sorted(matches));
    return Some(Sorted(matches));
  }

  lemma NothingSorted()
    ensures StrictlySorted([])
  {}

  /** Reverse lookup and expansion are inverse: whenever the expansion of a formula succeeds, the formula
      depends on all of a target set exactly when it is no target and its expansion lists every target. */
  lemma UsesInvertsExpansion(c: Catalog, host: Host, filter: EdgeFilter, n: string, sought: set<string>, deps: seq<ExpandedDependency>)
    requires IsExpansion(CandidateGraph(c, host, filter, n), deps)
    ensures n !in sought && DependsOnAll(CandidateGraph(c, host, filter, n), n, sought, true) <==>
            n !in sought && forall s | s in sought :: Lists(deps, s)
  {}

  /** Every edge of every query for one candidate resolves. */
  ghost predicate ClosedForAll(c: Catalog, host: Host, filter: EdgeFilter) {
    forall n | n in c.byName :: Closed(CandidateGraph(c, host, filter, n))
  }

  /** Both queries, side by side. On a closed catalog, with targets that are known and a candidate that reaches no
      cycle, both answer; and whenever both answer, the answers are inverse. */
  method UsesAgreesWithExpansion(c: Catalog, targets: seq<string>, candidate: string, host: Host, filter: EdgeFilter)
    returns (used: Option<seq<string>>, expansion: Expansion)
    requires UniqueNames(c) && candidate in c.byName && targets != []
    ensures used.Some? ==> RootNames(c, targets).Some?
    ensures used.Some? && expansion.Expanded? ==>
      var sought := AsSet(RootNames(c, targets).value);
      candidate in used.value <==> candidate !in sought && forall s | s in sought :: Lists(expansion.dependencies, s)
    ensures !host.AllHosts? && RootNames(c, targets).Some? && ClosedForAll(c, host, filter) ==>
      && used.Some?
      && (expansion.Expanded? <==> !ReachesCycle(CandidateGraph(c, host, filter, candidate), candidate))
  {
    hide DependsOnAll, Closed, IsExpansion, Lists, ReachesCycle, Hunt, Justified;
    used := Uses(c, targets, host, true, filter);
    ghost var full;
    expansion, full := Expand(c, [candidate], host, All, filter);
    OwnName(c, candidate);
    assert AsSet([candidate]) == {candidate};
    if used.Some? && expansion.Expanded? {
      AllWanted(filter, full);
      SomethingSought(c, targets);
      UsesInvertsExpansion(c, host, filter, candidate, AsSet(RootNames(c, targets).value), full);
    }
    if Closed(CandidateGraph(c, host, filter, candidate)) {
      SearchFromOne(CandidateGraph(c, host, filter, candidate), candidate);
    }
  }

  lemma SearchFromOne(g: Graph, r: string)
    requires ValidCatalog(g.catalog) && r in Names(g)
    ensures HuntRoots(g, [r]).Some? <==> ReachesCycle(g, r)
  {
    hide ReachesCycle, Hunt;
    HuntRootsExact(g, [r]);
    assert r in [r];
  }

  lemma SomethingSought(c: Catalog, targets: seq<string>)
    requires RootNames(c, targets).Some? && targets != []
    ensures AsSet(RootNames(c, targets).value) != {}
  {
    var roots := RootNames(c, targets).value;
    assert roots[0] in AsSet(roots);
  }

  lemma OwnName(c: Catalog, name: string)
    requires ValidCatalog(c) && name in c.byName
    ensures RootNames(c, [name]) == Some([name])
  {
    var requested := [name];
    assert requested[..|requested| - 1] == [];
    assert RootNames(c, requested[..|requested| - 1]) == Some([]);
    assert [] + [name] == [name];
  }

  lemma {:induction false} AllWanted(filter: EdgeFilter, deps: seq<ExpandedDependency>)
    ensures WantedOf(All, filter, deps) == deps
  {
    if deps != [] {
      AllWanted(filter, deps[..|deps| - 1]);
      assert deps == deps[..|deps| - 1] + [deps[|deps| - 1]];
    }
  }
}
