/** Dependency expansion: a depth-first traversal that skips completed formulae and merges tags. */
module DependencyExpansion {
  import opened Text
  import opened Catalogs
  import opened DeclaredEdges
  import opened DependencyGraphs

  datatype Error =
    | Cycle(cycle: seq<string>)
    | MissingFormula(name: string)
    | UndecidedBound(name: string)
    | UniversalHost

  // ----- what the traversal keeps -----

  function NonRoots(finished: seq<string>, roots: set<string>): seq<string> {
    if finished == [] then []
    else
      var last := finished[|finished| - 1];
      NonRoots(finished[..|finished| - 1], roots) + (if last in roots then [] else [last])
  }

  /** Everything a finished formula depends on was finished before it. */
  ghost predicate Topological(g: Graph, finished: seq<string>) {
    forall i, v | 0 <= i < |finished| && Next(g, finished[i], v) :: v in finished[..i]
  }

  /** The tags of all edges in `seen` that lead to `n`. */
  ghost function Occurrences(g: Graph, seen: set<(string, nat)>, n: string): set<seq<Tag>> {
    set e | e in seen && EdgeTo(g, e.0, e.1, n) :: EdgeList(g, e.0)[e.1].tags
  }

  /** `m` is the merge of the occurrences: the greatest necessity, build if all are, test if one is. */
  ghost predicate IsMergeOf(occurrences: set<seq<Tag>>, m: MergedTags) {
    && (exists tags | tags in occurrences :: NecessityOf(tags) == m.necessity)
    && (forall tags | tags in occurrences :: NecessityOf(tags).Rank() <= m.necessity.Rank())
    && (m.build <==> forall tags | tags in occurrences :: Build in tags)
    && (m.test <==> exists tags | tags in occurrences :: Test in tags)
  }

  lemma FirstOccurrence(tags: seq<Tag>)
    ensures IsMergeOf({tags}, FromTags(tags))
  {}

  lemma OneMore(occurrences: set<seq<Tag>>, m: MergedTags, tags: seq<Tag>)
    requires IsMergeOf(occurrences, m)
    ensures IsMergeOf(occurrences + {tags}, Merge(m, FromTags(tags)))
  {}

  /** Exactly the formulae that some seen edge leads to have merged tags. */
  ghost predicate MergedExactly(g: Graph, seen: set<(string, nat)>, merged: map<string, MergedTags>) {
    && (forall n | n in merged :: IsMergeOf(Occurrences(g, seen, n), merged[n]))
    && (forall e | e in seen :: Kept(g, e.0, e.1) && Target(g, e.0, e.1) in merged)
  }

  lemma MergeSeen(g: Graph, seen: set<(string, nat)>, merged: map<string, MergedTags>, u: string, i: nat)
    requires MergedExactly(g, seen, merged) && Kept(g, u, i)
    ensures
      var n, occurrence := Target(g, u, i), FromTags(EdgeList(g, u)[i].tags);
      MergedExactly(g, seen + {(u, i)}, merged[n := if n in merged then Merge(merged[n], occurrence) else occurrence])
  {
    hide IsMergeOf, Merge, FromTags, Occurrences, Get;
    var n, tags := Target(g, u, i), EdgeList(g, u)[i].tags;
    var seen' := seen + {(u, i)};
    OccurrencesGrow(g, seen, u, i);
    if n in merged {
      OneMore(Occurrences(g, seen, n), merged[n], tags);
    } else {
      NoOccurrence(g, seen, merged, n);
      FirstOccurrence(tags);
      assert {} + {tags} == {tags};
    }
  }

  lemma NoOccurrence(g: Graph, seen: set<(string, nat)>, merged: map<string, MergedTags>, n: string)
    requires MergedExactly(g, seen, merged) && n !in merged
    ensures Occurrences(g, seen, n) == {}
  {}

  lemma OccurrencesGrow(g: Graph, seen: set<(string, nat)>, u: string, i: nat)
    requires Kept(g, u, i)
    ensures Occurrences(g, seen + {(u, i)}, Target(g, u, i)) ==
            Occurrences(g, seen, Target(g, u, i)) + {EdgeList(g, u)[i].tags}
    ensures forall k | k != Target(g, u, i) :: Occurrences(g, seen + {(u, i)}, k) == Occurrences(g, seen, k)
  {
    var n, seen' := Target(g, u, i), seen + {(u, i)};
    assert EdgeTo(g, u, i, n) && (u, i) in seen';
    forall k
      ensures Occurrences(g, seen', k) == Occurrences(g, seen, k) + if k == n then {EdgeList(g, u)[i].tags} else {}
    {
      OccurrencesAt(g, seen, u, i, k);
    }
  }

  lemma OccurrencesAt(g: Graph, seen: set<(string, nat)>, u: string, i: nat, k: string)
    requires Kept(g, u, i)
    ensures Occurrences(g, seen + {(u, i)}, k) ==
            Occurrences(g, seen, k) + if EdgeTo(g, u, i, k) then {EdgeList(g, u)[i].tags} else {}
  {}

  /** The formulae are finished in dependency order and all their edges are seen. */
  ghost predicate Finished(g: Graph, finished: seq<string>, seen: set<(string, nat)>) {
    && Distinct(finished) && Topological(g, finished)
    && (forall u | u in finished :: u in Names(g) && Resolved(g, u) && Reachable(g, u))
    && (forall u, k: nat | u in finished && Kept(g, u, k) :: (u, k) in seen)
  }

  /** The formulae being visited form a path from a root and none of them is finished. */
  ghost predicate Active(g: Graph, active: seq<string>, finished: seq<string>) {
    && Distinct(active) && (active != [] ==> IsPath(g, active))
    && forall u | u in active :: u in Names(g) && u !in finished && Reachable(g, u)
  }

  /** A finished formula is quiet on any path without finished formulae. */
  lemma {:induction false} FinishedQuiet(g: Graph, finished: seq<string>, path: seq<string>, k: nat)
    requires ValidCatalog(g.catalog) && Distinct(finished) && Topological(g, finished)
    requires forall u | u in finished :: u in Names(g)
    requires k < |finished| && forall i | 0 <= i <= k :: finished[i] !in path
    ensures Hunt(g, path, finished[k]).None?
    decreases k, 1, 0
  {
    var u := finished[k];
    ChildrenAreNamed(g, u);
    forall v | v in Children(g, u)
      ensures v in finished[..k]
    {
      ChildrenExact(g, u, v);
    }
    FinishedQuietAll(g, finished, path + [u], k, Children(g, u));
  }

  lemma {:induction false} FinishedQuietAll(g: Graph, finished: seq<string>, path: seq<string>, k: nat, children: seq<string>)
    requires ValidCatalog(g.catalog) && Distinct(finished) && Topological(g, finished)
    requires forall u | u in finished :: u in Names(g)
    requires k < |finished| && forall i | 0 <= i < k :: finished[i] !in path
    requires forall v | v in children :: v in Names(g) && v in finished[..k]
    ensures HuntAll(g, path, children).None?
    decreases k, 0, |children|
  {
    if children != [] {
      assert children[0] in children;
      var j :| 0 <= j < k && finished[j] == children[0];
      FinishedQuiet(g, finished, path, j);
      FinishedQuietAll(g, finished, path, k, children[1..]);
    }
  }

  /** The first cycle met from `v`, which may close one on the path right away. */
  function HuntAt(g: Graph, path: seq<string>, v: string): Option<seq<string>>
    requires ValidCatalog(g.catalog) && v in Names(g)
  {
    if v in path then Some(CycleAt(path, v)) else Hunt(g, path, v)
  }

  function CycleError(found: Option<seq<string>>): Option<Error> {
    match found
    case None => None
    case Some(c) => Some(Cycle(c))
  }

  // ----- the traversal -----

  datatype Ledger = Ledger(
    active: seq<string>,
    complete: set<string>,
    order: seq<string>,
    merged: map<string, MergedTags>,
    finished: seq<string>,
    seen: set<(string, nat)>)

  ghost predicate Consistent(g: Graph, l: Ledger) {
    && ValidCatalog(g.catalog)
    && (forall u :: u in l.complete <==> u in l.finished)
    && l.order == NonRoots(l.finished, g.roots)
    && Finished(g, l.finished, l.seen)
    && Active(g, l.active, l.finished)
    && (forall e | e in l.seen :: e.0 in l.active || e.0 in l.finished)
    && MergedExactly(g, l.seen, l.merged)
  }

  /** The formula may be visited next: it is a root, or the formula being visited depends on it. */
  ghost predicate Expected(g: Graph, active: seq<string>, name: string) {
    name in Names(g) && if active == [] then name in g.roots else Next(g, active[|active| - 1], name)
  }

  /** No edge of the formulae on the path has been added or dropped. */
  ghost predicate SameSeen(path: seq<string>, seen: set<(string, nat)>, seen': set<(string, nat)>) {
    forall u, k: nat | u in path :: (u, k) in seen <==> (u, k) in seen'
  }

  /** Of the formula's edges, exactly the selected ones before `i` are done. */
  ghost predicate EdgesDone(g: Graph, l: Ledger, u: string, i: nat) {
    && (forall k: nat | k < i && Included(g, u, k) :: Kept(g, u, k) && Target(g, u, k) in l.finished)
    && (forall k: nat :: (u, k) in l.seen <==> k < i && Kept(g, u, k))
  }

  /** Some formula that a root reaches has a selected edge to the name. */
  ghost predicate Wants(g: Graph, name: string) {
    exists u, i: nat :: Reachable(g, u) && Included(g, u, i) && i < |EdgeList(g, u)| && EdgeList(g, u)[i].name == name
  }

  /** An error is what it says. */
  ghost predicate Justified(g: Graph, error: Option<Error>) {
    error.Some? ==>
      match error.value
      case Cycle(c) => IsCycle(g, c) && Reachable(g, c[0])
      case MissingFormula(name) => Get(g.catalog, name).None? && Wants(g, name)
      case UndecidedBound(name) =>
        Reachable(g, name) && Get(g.catalog, name).Some? && Edges(Get(g.catalog, name).value, g.host).None?
      case UniversalHost => g.host.AllHosts?
  }

  lemma Entered(g: Graph, l: Ledger, name: string)
    requires Consistent(g, l) && Expected(g, l.active, name) && name !in l.active && name !in l.complete
    ensures Consistent(g, l.(active := l.active + [name]))
    ensures |Off(g, l.active + [name])| < |Off(g, l.active)|
    ensures forall k: nat :: (name, k) !in l.seen
    ensures EdgesDone(g, l.(active := l.active + [name]), name, 0)
  {
    hide Finished, MergedExactly, Next;
    OffShrinks(g, l.active, name);
    if l.active == [] {
      ReachesSelf(g, name);
    } else {
      assert l.active[|l.active| - 1] in l.active;
      ReachableStep(g, l.active[|l.active| - 1], name);
      PathJoin(g, l.active, [name]);
    }
  }

  lemma Merged(g: Graph, l: Ledger, u: string, i: nat)
    requires Consistent(g, l) && u in l.active && Kept(g, u, i)
    ensures
      var n, occurrence := Target(g, u, i), FromTags(EdgeList(g, u)[i].tags);
      Consistent(g, l.(merged := l.merged[n := if n in l.merged then Merge(l.merged[n], occurrence) else occurrence],
                       seen := l.seen + {(u, i)}))
  {
    MergeSeen(g, l.seen, l.merged, u, i);
    hide MergedExactly, Topological, Active, Kept, Merge, FromTags;
  }

  lemma Left(g: Graph, l: Ledger, name: string)
    requires Consistent(g, l) && l.active != [] && l.active[|l.active| - 1] == name && Resolved(g, name)
    requires EdgesDone(g, l, name, |EdgeList(g, name)|)
    ensures Consistent(g, l.(active := l.active[..|l.active| - 1], complete := l.complete + {name},
                             finished := l.finished + [name],
                             order := if name in g.roots then l.order else l.order + [name]))
  {
    hide Finished, Active, MergedExactly, EdgesDone, ValidCatalog, Resolved, EdgeList;
    LastIsActive(l.active, name);
    FinishedGrows(g, l, name);
    ConsistentActive(g, l);
    ActiveShrinks(g, l, name);
    var finished := l.finished + [name];
    assert finished[..|finished| - 1] == l.finished;
    assert l.active == l.active[..|l.active| - 1] + [name];
  }

  lemma ConsistentActive(g: Graph, l: Ledger)
    requires Consistent(g, l)
    ensures Active(g, l.active, l.finished)
  {}

  lemma FinishedGrows(g: Graph, l: Ledger, name: string)
    requires Consistent(g, l) && name in l.active && Resolved(g, name)
    requires EdgesDone(g, l, name, |EdgeList(g, name)|)
    ensures Finished(g, l.finished + [name], l.seen)
  {
    var finished := l.finished + [name];
    hide MergedExactly, Resolved, Reachable;
    forall i, v | 0 <= i < |finished| && Next(g, finished[i], v)
      ensures v in finished[..i]
    {
      assert finished[..i] == l.finished[..i];
      if i == |l.finished| {
        var k: nat :| EdgeTo(g, name, k, v);
        assert l.finished[..i] == l.finished;
      }
    }
  }

  lemma ActiveShrinks(g: Graph, l: Ledger, name: string)
    requires Active(g, l.active, l.finished) && l.active != [] && l.active[|l.active| - 1] == name
    ensures Active(g, l.active[..|l.active| - 1], l.finished + [name])
  {
    hide Reachable;
    if |l.active| > 1 {
      PathEnd(g, l.active);
    }
  }

  lemma CompleteIsQuiet(g: Graph, l: Ledger, name: string)
    requires Consistent(g, l) && name in l.complete && name in Names(g)
    ensures name in l.finished && name !in l.active && Hunt(g, l.active, name).None?
  {
    hide MergedExactly, Hunt, Topological;
    var k: nat :| k < |l.finished| && l.finished[k] == name;
    FinishedQuiet(g, l.finished, l.active, k);
  }

  lemma CycleFound(g: Graph, l: Ledger, name: string)
    requires Consistent(g, l) && Expected(g, l.active, name) && name in l.active
    ensures IsCycle(g, CycleAt(l.active, name)) && Reachable(g, CycleAt(l.active, name)[0])
  {
    hide Finished, MergedExactly, Next;
    assert l.active[0] in l.active;
    CycleOnPath(g, l.active, name);
  }

  /** What the reference search finds among the children from edge `i` on. */
  ghost function HuntRest(g: Graph, path: seq<string>, name: string, i: nat): Option<seq<string>>
    requires ValidCatalog(g.catalog)
  {
    ChildrenFromAreNamed(g, name, i);
    HuntAll(g, path, ChildrenFrom(g, name, i))
  }

  lemma HuntIsRest(g: Graph, path: seq<string>, name: string)
    requires ValidCatalog(g.catalog) && name in Names(g) && name !in path
    ensures Hunt(g, path, name) == HuntRest(g, path + [name], name, 0)
  {}

  lemma HuntRestStep(g: Graph, path: seq<string>, name: string, i: nat)
    requires ValidCatalog(g.catalog) && i < |EdgeList(g, name)|
    ensures !Kept(g, name, i) ==> HuntRest(g, path, name, i) == HuntRest(g, path, name, i + 1)
    ensures Kept(g, name, i) ==> Target(g, name, i) in Names(g)
    ensures Kept(g, name, i) ==>
      HuntRest(g, path, name, i) ==
      match HuntAt(g, path, Target(g, name, i))
      case Some(c) => Some(c)
      case None => HuntRest(g, path, name, i + 1)
  {}

  lemma HuntRestEnd(g: Graph, path: seq<string>, name: string)
    requires ValidCatalog(g.catalog)
    ensures HuntRest(g, path, name, |EdgeList(g, name)|).None?
  {}

  lemma ClosedIsKept(g: Graph, u: string, i: nat)
    requires Closed(g) && u in Names(g) && Included(g, u, i)
    ensures Kept(g, u, i)
  {}

  class Traversal {
    const g: Graph
    var active: seq<string>
    var complete: set<string>
    var order: seq<string>
    var merged: map<string, MergedTags>
    /** Completed formulae in order, roots included. */
    ghost var finished: seq<string>
    /** The edges whose tags have been merged. */
    ghost var seen: set<(string, nat)>

    ghost function ToLedger(): Ledger
      reads this
    {
      Ledger(active, complete, order, merged, finished, seen)
    }

    ghost predicate Valid()
      reads this
    {
      Consistent(g, ToLedger())
    }

    constructor (g: Graph)
      requires ValidCatalog(g.catalog)
      ensures Valid() && this.g == g && active == [] && finished == [] && fresh(this)
    {
      this.g := g;
      active, complete, order, merged := [], {}, [], map[];
      finished, seen := [], {};
    }

    method Visit(name: string) returns (error: Option<Error>)
      requires Valid() && Expected(g, active, name)
      modifies this
      ensures error.None? ==> Valid() && active == old(active) && name in finished && old(finished) <= finished
      ensures error.None? ==> SameSeen(active, old(seen), seen)
      ensures Justified(g, error)
      ensures ValidCatalog(g.catalog) && (Closed(g) ==> error == CycleError(HuntAt(g, old(active), name)))
      decreases |Off(g, active)|, 0
    {
      hide Consistent, Expected, Closed, Hunt, Off, EdgesDone, CycleAt, IsCycle, Reachable, SameSeen, Resolved;
      CatalogIsValid(g, ToLedger(), name);
      assert name in Names(g);
      if name in active {
        CycleFound(g, ToLedger(), name);
        return Some(Cycle(CycleAt(active, name)));
      }
      if name in complete {
        CompleteIsQuiet(g, ToLedger(), name);
        SameSeenSelf(active, seen);
        return None;
      }
      var current := Get(g.catalog, name);
      NamedIsFound(g, name);
      if current.None? {
        return Some(MissingFormula(name));
      }
      var edges := Edges(current.value, g.host);
      if edges.None? {
        ClosedResolves(g, name);
        ExpectedIsReachable(g, ToLedger(), name);
        return Some(UndecidedBound(name));
      }
      Entered(g, ToLedger(), name);
      HuntIsRest(g, active, name);
      ghost var path := active;
      active := active + [name];
      error := VisitEdges(name);
      if error.None? {
        Left(g, ToLedger(), name);
        SameSeenShorter(path, name, old(seen), seen);
        active := active[..|active| - 1];
        complete := complete + {name};
        finished := finished + [name];
        if name !in g.roots {
          order := order + [name];
        }
        assert active == path;
      }
    }

    /** The loop over the edges of the formula being visited. */
    method VisitEdges(name: string) returns (error: Option<Error>)
      requires Valid() && active != [] && active[|active| - 1] == name && name in Names(g)
      requires EdgesDone(g, ToLedger(), name, 0) && ValidCatalog(g.catalog)
      requires Get(g.catalog, name).Some? && Edges(Get(g.catalog, name).value, g.host).Some?
      modifies this
      ensures error.None? ==> Valid() && active == old(active) && old(finished) <= finished
      ensures error.None? ==> Resolved(g, name) && EdgesDone(g, ToLedger(), name, |EdgeList(g, name)|)
      ensures error.None? ==> SameSeen(active[..|active| - 1], old(seen), seen)
      ensures Justified(g, error)
      ensures Closed(g) ==> error == CycleError(HuntRest(g, old(active), name, 0))
      decreases |Off(g, active)|, 2
    {
      hide Consistent, Closed, HuntRest, Off, IsCycle, Reachable, SameSeen, Active, Finished, Get, Included, Justified, EdgeList;
      error := None;
      NoError(g);
      SameSeenSelf(active[..|active| - 1], seen);
      var i: nat := 0;
      while i < |EdgeList(g, name)|
        invariant i <= |EdgeList(g, name)| && error == None
        invariant Valid() && active == old(active) && old(finished) <= finished
        invariant EdgesDone(g, ToLedger(), name, i)
        invariant SameSeen(active[..|active| - 1], old(seen), seen)
        invariant Closed(g) ==> HuntRest(g, active, name, 0) == HuntRest(g, active, name, i)
      {
        HuntRestStep(g, active, name, i);
        if Included(g, name, i) {
          ghost var before := seen;
          error := VisitEdge(name, i);
          if error.Some? {
            return;
          }
          SameSeenTrans(active[..|active| - 1], old(seen), before, seen);
        }
        i := i + 1;
      }
      HuntRestEnd(g, active, name);
    }

    /** One selected edge: its formula is looked up, its tags are merged, and it is visited. */
    method VisitEdge(name: string, i: nat) returns (error: Option<Error>)
      requires Valid() && active != [] && active[|active| - 1] == name && name in Names(g)
      requires Included(g, name, i) && EdgesDone(g, ToLedger(), name, i) && ValidCatalog(g.catalog)
      modifies this
      ensures error.None? ==> Valid() && active == old(active) && old(finished) <= finished
      ensures error.None? ==> EdgesDone(g, ToLedger(), name, i + 1)
      ensures error.None? ==> SameSeen(active[..|active| - 1], old(seen), seen)
      ensures Justified(g, error)
      ensures Closed(g) && error.None? ==> HuntRest(g, old(active), name, i) == HuntRest(g, old(active), name, i + 1)
      ensures Closed(g) && error.Some? ==> error == CycleError(HuntRest(g, old(active), name, i))
      decreases |Off(g, active)|, 1
    {
      hide Consistent, Closed, HuntRest, Off, EdgesDone, IsCycle, Reachable, SameSeen, HuntAt, Included, Merge, FromTags;
      ghost var before := ToLedger();
      IncludedIsInList(g, name, i);
      HuntRestStep(g, active, name, i);
      var edge := EdgeList(g, name)[i];
      var dependency := Get(g.catalog, edge.name);
      if dependency.None? {
        if Closed(g) {
          ClosedIsKept(g, name, i);
        }
        ActiveWants(g, ToLedger(), name, i);
        return Some(MissingFormula(edge.name));
      }
      var target := dependency.value.name;
      assert Kept(g, name, i) && Target(g, name, i) == target;
      LastIsActive(active, name);
      EdgeExpected(g, active, name, i);
      Merged(g, before, name, i);
      var occurrence := FromTags(edge.tags);
      merged := merged[target := if target in merged then Merge(merged[target], occurrence) else occurrence];
      seen := seen + {(name, i)};
      error := Visit(target);
      if error.None? {
        EdgeDone(g, before, ToLedger(), name, i);
      }
    }
  }

  lemma NoError(g: Graph)
    ensures Justified(g, None)
  {}

  lemma NamedIsFound(g: Graph, name: string)
    requires ValidCatalog(g.catalog) && name in Names(g)
    ensures Get(g.catalog, name).Some?
  {}

  lemma ExpectedIsReachable(g: Graph, l: Ledger, name: string)
    requires Consistent(g, l) && Expected(g, l.active, name)
    ensures Reachable(g, name)
  {
    hide Finished, MergedExactly, Next;
    if l.active == [] {
      ReachesSelf(g, name);
    } else {
      assert l.active[|l.active| - 1] in l.active;
      ReachableStep(g, l.active[|l.active| - 1], name);
    }
  }

  lemma ActiveWants(g: Graph, l: Ledger, name: string, i: nat)
    requires Consistent(g, l) && l.active != [] && l.active[|l.active| - 1] == name && Included(g, name, i)
    ensures i < |EdgeList(g, name)| && Wants(g, EdgeList(g, name)[i].name)
  {
    hide Finished, MergedExactly, Reachable;
    LastIsActive(l.active, name);
  }

  lemma IncludedIsInList(g: Graph, name: string, i: nat)
    requires Included(g, name, i)
    ensures i < |EdgeList(g, name)|
  {}

  lemma LastIsActive(active: seq<string>, name: string)
    requires active != [] && active[|active| - 1] == name
    ensures name in active
  {}

  lemma EdgeExpected(g: Graph, active: seq<string>, name: string, i: nat)
    requires ValidCatalog(g.catalog) && active != [] && active[|active| - 1] == name && Kept(g, name, i)
    ensures Expected(g, active, Target(g, name, i))
  {
    assert EdgeTo(g, name, i, Target(g, name, i));
    NextIsNamed(g, name, Target(g, name, i));
  }

  lemma EdgeDone(g: Graph, l: Ledger, l': Ledger, name: string, i: nat)
    requires EdgesDone(g, l, name, i) && l.active != [] && l.active[|l.active| - 1] == name
    requires Consistent(g, l)
    requires l.finished <= l'.finished && SameSeen(l.active, l.seen + {(name, i)}, l'.seen)
    requires Kept(g, name, i) && Target(g, name, i) in l'.finished
    ensures EdgesDone(g, l', name, i + 1)
    ensures SameSeen(l.active[..|l.active| - 1], l.seen, l'.seen)
  {
    hide Finished, MergedExactly, IsPath;
    assert name in l.active;
    var front := l.active[..|l.active| - 1];
    forall u, k: nat | u in front
      ensures (u, k) in l.seen <==> (u, k) in l'.seen
    {
      assert u in l.active && u != name;
    }
  }

  lemma CatalogIsValid(g: Graph, l: Ledger, name: string)
    requires Consistent(g, l) && Expected(g, l.active, name)
    ensures ValidCatalog(g.catalog) && name in Names(g)
  {}

  lemma ClosedResolves(g: Graph, name: string)
    requires name in Names(g)
    ensures Closed(g) ==> Get(g.catalog, name).Some? && Edges(Get(g.catalog, name).value, g.host).Some?
  {}

  lemma SameSeenSelf(path: seq<string>, seen: set<(string, nat)>)
    ensures SameSeen(path, seen, seen)
  {}

  lemma SameSeenTrans(path: seq<string>, a: set<(string, nat)>, b: set<(string, nat)>, c: set<(string, nat)>)
    requires SameSeen(path, a, b) && SameSeen(path, b, c)
    ensures SameSeen(path, a, c)
  {}

  lemma SameSeenShorter(path: seq<string>, name: string, a: set<(string, nat)>, b: set<(string, nat)>)
    requires SameSeen((path + [name])[..|path + [name]| - 1], a, b)
    ensures SameSeen(path, a, b)
  {}

  lemma ChildrenFromAreNamed(g: Graph, u: string, i: nat)
    requires ValidCatalog(g.catalog)
    ensures forall v | v in ChildrenFrom(g, u, i) :: v in Names(g)
  {
    forall v | v in ChildrenFrom(g, u, i)
      ensures v in Names(g)
    {
      ChildrenFromExact(g, u, i, v);
      var k: nat :| i <= k && EdgeTo(g, u, k, v);
      NextIsNamed(g, u, v);
    }
  }

  lemma CycleOnPath(g: Graph, active: seq<string>, v: string)
    requires active != [] && IsPath(g, active) && v in active && Next(g, active[|active| - 1], v)
    requires Reachable(g, active[0])
    ensures IsCycle(g, CycleAt(active, v)) && Reachable(g, CycleAt(active, v)[0])
  {
    ClosingCycle(g, active, v);
    PathSlice(g, active, 0, Position(active, v) + 1);
    ReachableFrom(g, active[0], CycleAt(active, v)[0]);
  }

  lemma ReachableFrom(g: Graph, u: string, v: string)
    requires Reachable(g, u) && Reaches(g, u, v)
    ensures Reachable(g, v)
  {
    var p :| PathFromTo(g, p, u, v);
    ReachableAlong(g, p);
  }

  lemma {:induction false} ReachableAlong(g: Graph, p: seq<string>)
    requires IsPath(g, p) && Reachable(g, p[0])
    ensures Reachable(g, p[|p| - 1])
    decreases |p|
  {
    if |p| > 1 {
      PathEnd(g, p);
      ReachableAlong(g, p[..|p| - 1]);
      ReachableStep(g, p[|p| - 2], p[|p| - 1]);
    }
  }

  // ----- expansion -----

  datatype Mode = All | Pour

  datatype ExpandedDependency = ExpandedDependency(name: string, necessity: Necessity, build: bool, test: bool) {
    function Tags(): MergedTags {
      MergedTags(necessity, build, test)
    }
  }

  datatype Expansion = Expanded(dependencies: seq<ExpandedDependency>) | Rejected(error: Error)

  /** The canonical names of the requested roots, each once, in order of request. */
  function RootNames(c: Catalog, requested: seq<string>): Option<seq<string>> {
    if requested == [] then Some([])
    else
      match RootNames(c, requested[..|requested| - 1])
      case None => None
      case Some(before) =>
        match Get(c, requested[|requested| - 1])
        case None => None
        case Some(f) => Some(if f.name in before then before else before + [f.name])
  }

  lemma {:induction false} RootNamesTold(c: Catalog, requested: seq<string>)
    ensures RootNames(c, requested).Some? <==> forall q | q in requested :: Get(c, q).Some?
    ensures RootNames(c, requested).Some? ==>
              && Distinct(RootNames(c, requested).value)
              && forall n :: n in RootNames(c, requested).value <==>
                             exists q | q in requested :: Get(c, q).Some? && Get(c, q).value.name == n
  {
    hide Get;
    if requested != [] {
      var front, last := requested[..|requested| - 1], requested[|requested| - 1];
      RootNamesTold(c, front);
      assert forall q :: q in requested <==> q in front || q == last;
    }
  }

  function AsSet(names: seq<string>): set<string> {
    set n | n in names
  }

  function QueryGraph(c: Catalog, host: Host, filter: EdgeFilter, roots: seq<string>): Graph {
    Graph(c, host, filter, AsSet(roots))
  }

  /** The first cycle met when the roots are searched in order. */
  function HuntRoots(g: Graph, roots: seq<string>): Option<seq<string>>
    requires ValidCatalog(g.catalog) && forall r | r in roots :: r in Names(g)
  {
    if roots == [] then None
    else
      match HuntRoots(g, roots[..|roots| - 1])
      case Some(c) => Some(c)
      case None => Hunt(g, [], roots[|roots| - 1])
  }

  /** All the edges of the formulae that the roots reach. */
  ghost predicate SeesReachable(g: Graph, seen: set<(string, nat)>) {
    forall u, k: nat :: (u, k) in seen <==> Reachable(g, u) && Kept(g, u, k)
  }

  predicate ListsOnce(deps: seq<ExpandedDependency>) {
    forall i, j | 0 <= i < j < |deps| :: deps[i].name != deps[j].name
  }

  predicate Lists(deps: seq<ExpandedDependency>, n: string) {
    exists i | 0 <= i < |deps| :: deps[i].name == n
  }

  /** Exactly the formulae that some root reaches, the roots themselves left out. */
  ghost predicate ListsReachable(g: Graph, deps: seq<ExpandedDependency>) {
    forall n :: Lists(deps, n) <==> Reachable(g, n) && n !in g.roots
  }

  /** Everything a listed formula depends on is listed before it, or is a root. */
  ghost predicate DependenciesFirst(g: Graph, deps: seq<ExpandedDependency>) {
    forall i, v | 0 <= i < |deps| && Next(g, deps[i].name, v) && v !in g.roots :: Lists(deps[..i], v)
  }

  /** Each entry merges the tags of every edge into it from a reachable formula. */
  ghost predicate MergesReachable(g: Graph, deps: seq<ExpandedDependency>) {
    exists seen :: SeesReachable(g, seen) && MergesAll(g, seen, deps)
  }

  ghost predicate MergesAll(g: Graph, seen: set<(string, nat)>, deps: seq<ExpandedDependency>) {
    forall i | 0 <= i < |deps| :: IsMergeOf(Occurrences(g, seen, deps[i].name), deps[i].Tags())
  }

  ghost predicate Acyclic(g: Graph) {
    forall c | IsCycle(g, c) :: !Reachable(g, c[0])
  }

  ghost predicate ResolvesReachable(g: Graph) {
    forall u | Reachable(g, u) :: Resolved(g, u)
  }

  /** What an expansion in mode `All` must list. */
  ghost predicate IsExpansion(g: Graph, deps: seq<ExpandedDependency>) {
    ListsOnce(deps) && ListsReachable(g, deps) && DependenciesFirst(g, deps) && MergesReachable(g, deps) && Acyclic(g) &&
    ResolvesReachable(g)
  }

  // ----- the same told from the catalog -----

  /** Some formula that a root leads to declares the dependency, and it is on `n`. */
  ghost predicate Into(g: Graph, e: Edge, n: string) {
    exists u :: RootLeads(g, u) && DependsBy(g, u, e, n)
  }

  /** Required if one dependency on it is neither optional nor recommended, optional if all are merely optional;
      for building if all are, for testing if one is. */
  ghost predicate TagsTold(g: Graph, d: ExpandedDependency) {
    && (d.necessity.RequiredDep? <==> exists e :: Into(g, e, d.name) && Recommended !in e.tags && Optional !in e.tags)
    && (d.necessity.OptionalDep? <==> forall e | Into(g, e, d.name) :: Recommended !in e.tags && Optional in e.tags)
    && (d.build <==> forall e | Into(g, e, d.name) :: Build in e.tags)
    && (d.test <==> exists e :: Into(g, e, d.name) && Test in e.tags)
  }

  /** Listed is, once and with its tags, whatever a root leads to by declared dependencies, the roots left out, and
      what a listed formula depends on stands before it. */
  ghost predicate ExpansionTold(g: Graph, deps: seq<ExpandedDependency>) {
    && ListsOnce(deps)
    && (forall n :: Lists(deps, n) <==> RootLeads(g, n) && n !in g.roots)
    && (forall i, v | 0 <= i < |deps| && Depends(g, deps[i].name, v) && v !in g.roots :: Lists(deps[..i], v))
    && (forall i | 0 <= i < |deps| :: TagsTold(g, deps[i]))
    && NothingWrong(g)
  }

  /** The names go round: each depends on the next, and the last is the first. */
  ghost predicate GoesRound(g: Graph, c: seq<string>) {
    |c| > 1 && Chain(g, c) && c[0] == c[|c| - 1]
  }

  /** The formula can be looked at: its bounds are decided, and what it declares and the query follows exists. */
  ghost predicate InOrder(g: Graph, u: string) {
    && Get(g.catalog, u).Some? && Decided(Get(g.catalog, u).value, g.host)
    && forall e | Declares(Get(g.catalog, u).value, g.host, e) && Admits(g.filter, e.tags, u in g.roots) ::
         Get(g.catalog, e.name).Some?
  }

  /** Whatever a root leads to is in order, and no root leads to formulae that go round. */
  ghost predicate NothingWrong(g: Graph) {
    && (forall u | RootLeads(g, u) :: InOrder(g, u))
    && (forall c | GoesRound(g, c) :: !RootLeads(g, c[0]))
  }

  /** An error is found where a root leads. */
  ghost predicate ErrorTold(g: Graph, error: Error) {
    match error
    case Cycle(c) => GoesRound(g, c) && RootLeads(g, c[0])
    case MissingFormula(name) => Get(g.catalog, name).None? && exists u, e :: RootLeads(g, u) && Follows(g, u, e) && e.name == name
    case UndecidedBound(name) =>
      RootLeads(g, name) && Get(g.catalog, name).Some? && !Decided(Get(g.catalog, name).value, g.host)
    case UniversalHost => g.host.AllHosts?
  }

  ghost predicate Follows(g: Graph, u: string, e: Edge) {
    && Get(g.catalog, u).Some? && Declares(Get(g.catalog, u).value, g.host, e)
    && Admits(g.filter, e.tags, u in g.roots)
  }

  lemma ErrorIsTold(g: Graph, error: Error)
    requires Justified(g, Some(error))
    ensures ErrorTold(g, error)
  {
    hide Reachable, RootLeads, IsPath, Chain, Declares, Decided, Admits, EdgeFilter.Includes, Edges;
    match error
    case Cycle(c) =>
      ChainExact(g, c);
      RootLeadsExact(g, c[0]);
    case MissingFormula(name) =>
      var u, i: nat :| Reachable(g, u) && Included(g, u, i) && i < |EdgeList(g, u)| && EdgeList(g, u)[i].name == name;
      RootLeadsExact(g, u);
      IncludesExact(g.filter, EdgeList(g, u)[i].tags, u in g.roots);
      EdgesExact(Get(g.catalog, u).value, g.host);
      assert EdgeList(g, u)[i] in EdgeList(g, u);
      assert Follows(g, u, EdgeList(g, u)[i]);
    case UndecidedBound(name) =>
      RootLeadsExact(g, name);
      EdgesExact(Get(g.catalog, name).value, g.host);
    case UniversalHost =>
  }

  lemma NothingIsWrong(g: Graph)
    requires ResolvesReachable(g) && Acyclic(g)
    ensures NothingWrong(g)
  {
    hide Reachable, RootLeads, IsPath, Chain, Resolved, InOrder;
    forall u | RootLeads(g, u)
      ensures InOrder(g, u)
    {
      RootLeadsExact(g, u);
      ResolvedInOrder(g, u);
    }
    forall c | GoesRound(g, c)
      ensures !RootLeads(g, c[0])
    {
      ChainExact(g, c);
      RootLeadsExact(g, c[0]);
    }
  }

  lemma ResolvedInOrder(g: Graph, u: string)
    requires Resolved(g, u)
    ensures InOrder(g, u)
  {
    hide Resolved, Declares, Decided, Admits;
    ResolvedExact(g, u);
  }

  lemma IntoExact(g: Graph, seen: set<(string, nat)>, n: string)
    requires SeesReachable(g, seen)
    ensures forall e | Into(g, e, n) :: e.tags in Occurrences(g, seen, n)
    ensures forall tags | tags in Occurrences(g, seen, n) :: exists e :: Into(g, e, n) && e.tags == tags
  {
    hide Reachable, RootLeads, DependsBy, EdgeTo;
    forall e | Into(g, e, n)
      ensures e.tags in Occurrences(g, seen, n)
    {
      var u :| RootLeads(g, u) && DependsBy(g, u, e, n);
      RootLeadsExact(g, u);
      DependsByExact(g, u, e, n);
      var i: nat :| i < |EdgeList(g, u)| && EdgeTo(g, u, i, n) && EdgeList(g, u)[i] == e;
      EdgeToKept(g, u, i, n);
      assert (u, i) in seen;
    }
    forall tags | tags in Occurrences(g, seen, n)
      ensures exists e :: Into(g, e, n) && e.tags == tags
    {
      var o :| o in seen && EdgeTo(g, o.0, o.1, n) && EdgeList(g, o.0)[o.1].tags == tags;
      RootLeadsExact(g, o.0);
      DependsByExact(g, o.0, EdgeList(g, o.0)[o.1], n);
      assert Into(g, EdgeList(g, o.0)[o.1], n);
    }
  }

  lemma EdgeToKept(g: Graph, u: string, i: nat, n: string)
    requires EdgeTo(g, u, i, n)
    ensures Kept(g, u, i)
  {}

  lemma MergedTold(g: Graph, seen: set<(string, nat)>, d: ExpandedDependency)
    requires SeesReachable(g, seen) && IsMergeOf(Occurrences(g, seen, d.name), d.Tags())
    ensures TagsTold(g, d)
  {
    hide Into, SeesReachable, Occurrences;
    IntoExact(g, seen, d.name);
    var occurrences := Occurrences(g, seen, d.name);
    var greatest :| greatest in occurrences && NecessityOf(greatest) == d.necessity;
    forall tags
      ensures NecessityOf(tags).RequiredDep? <==> Recommended !in tags && Optional !in tags
      ensures NecessityOf(tags).OptionalDep? <==> Recommended !in tags && Optional in tags
    {}
  }

  lemma ExpansionIsTold(g: Graph, deps: seq<ExpandedDependency>)
    requires IsExpansion(g, deps)
    ensures ExpansionTold(g, deps)
  {
    hide Lists, Reachable, RootLeads, Next, Depends, SeesReachable, IsMergeOf, TagsTold, Acyclic, ResolvesReachable, NothingWrong;
    NothingIsWrong(g);
    forall n
      ensures Lists(deps, n) <==> RootLeads(g, n) && n !in g.roots
    {
      RootLeadsExact(g, n);
    }
    forall i, v | 0 <= i < |deps| && Depends(g, deps[i].name, v) && v !in g.roots
      ensures Lists(deps[..i], v)
    {
      NextExact(g, deps[i].name, v);
    }
    var seen :| SeesReachable(g, seen) && MergesAll(g, seen, deps);
    forall i | 0 <= i < |deps|
      ensures TagsTold(g, deps[i])
    {
      MergedTold(g, seen, deps[i]);
    }
  }

  /** On Linux every dependency without tags that a root or a listed formula declares, of either kind, is listed
      itself or a root, if there is such a formula. */
  ghost predicate LinuxListsAll(g: Graph, deps: seq<ExpandedDependency>) {
    forall u, name | (u in g.roots || Lists(deps, u)) && DeclaredUntagged(g.catalog, u, name) && Get(g.catalog, name).Some? ::
      Get(g.catalog, name).value.name in g.roots || Lists(deps, Get(g.catalog, name).value.name)
  }

  ghost predicate DeclaredUntagged(c: Catalog, u: string, name: string) {
    && Get(c, u).Some?
    && (Dependency(name, []) in Get(c, u).value.dependencies ||
        exists d | d in Get(c, u).value.usesFromMacos :: d.name == name && d.tags == [])
  }

  lemma LinuxIsTold(g: Graph, deps: seq<ExpandedDependency>)
    requires ExpansionTold(g, deps)
    ensures g.host.Linux? ==> LinuxListsAll(g, deps)
  {
    hide RootLeads, Lists;
    forall u, name | g.host.Linux? && (u in g.roots || Lists(deps, u)) && DeclaredUntagged(g.catalog, u, name) &&
                     Get(g.catalog, name).Some?
      ensures RootLeads(g, Get(g.catalog, name).value.name)
    {
      if u in g.roots {
        ReachesSelf(g, u);
        LeadsExact(g, u, u);
        RootLeadsExact(g, u);
      }
      assert DependsBy(g, u, Edge(name, []), Get(g.catalog, name).value.name);
      RootLeadsOn(g, u, Get(g.catalog, name).value.name);
    }
  }

  lemma RootLeadsOn(g: Graph, u: string, v: string)
    requires RootLeads(g, u) && Depends(g, u, v)
    ensures RootLeads(g, v)
  {
    hide RootLeads, Depends, Next, Reachable;
    RootLeadsExact(g, u);
    NextExact(g, u, v);
    ReachableStep(g, u, v);
    RootLeadsExact(g, v);
  }

  // ----- what a finished traversal has found -----

  lemma {:induction false} NonRootsExact(finished: seq<string>, roots: set<string>, n: string)
    ensures n in NonRoots(finished, roots) <==> n in finished && n !in roots
  {
    if finished != [] {
      var front, last := finished[..|finished| - 1], finished[|finished| - 1];
      NonRootsExact(front, roots, n);
      assert finished == front + [last];
    }
  }

  lemma {:induction false} NonRootsDistinct(finished: seq<string>, roots: set<string>)
    requires Distinct(finished)
    ensures Distinct(NonRoots(finished, roots))
  {
    if finished != [] {
      var front, last := finished[..|finished| - 1], finished[|finished| - 1];
      NonRootsDistinct(front, roots);
      NonRootsExact(front, roots, last);
    }
  }

  /** What was finished before a listed formula is listed before it. */
  lemma {:induction false} NonRootsOrdered(finished: seq<string>, roots: set<string>, i: nat, k: nat, v: string)
    requires Distinct(finished) && i < |NonRoots(finished, roots)|
    requires k < |finished| && finished[k] == NonRoots(finished, roots)[i] && v in finished[..k] && v !in roots
    ensures v in NonRoots(finished, roots)[..i]
  {
    var front, last := finished[..|finished| - 1], finished[|finished| - 1];
    var listed := NonRoots(front, roots);
    NonRootsExact(front, roots, v);
    if i < |listed| {
      NonRootsExact(front, roots, listed[i]);
      assert listed[i] in front;
      var k' :| 0 <= k' < |front| && front[k'] == listed[i];
      assert finished[k'] == finished[k];
      assert front[..k] == finished[..k];
      NonRootsOrdered(front, roots, i, k, v);
      assert NonRoots(finished, roots)[..i] == listed[..i];
    } else {
      assert NonRoots(finished, roots) == listed + [last];
      assert finished[k] == last;
      assert finished[..k] == front[..k];
      assert NonRoots(finished, roots)[..i] == listed;
    }
  }

  /** Along a path, positions in the finishing order go down. */
  lemma {:induction false} PathDescends(g: Graph, finished: seq<string>, p: seq<string>, k: nat)
    requires Topological(g, finished) && IsPath(g, p) && |p| > 1
    requires k < |finished| && finished[k] == p[0]
    ensures p[|p| - 1] in finished[..k]
    decreases |p|
  {
    hide Next;
    PathEnd(g, p);
    var u, v := p[|p| - 2], p[|p| - 1];
    if |p| == 2 {
      assert u == finished[k];
    } else {
      PathDescends(g, finished, p[..|p| - 1], k);
      var j :| 0 <= j < k && finished[..k][j] == u;
      assert v in finished[..j];
      assert finished[..j] <= finished[..k];
    }
  }

  lemma DistinctPrefix(p: seq<string>, k: nat)
    requires Distinct(p) && k < |p|
    ensures p[k] !in p[..k]
  {}

  lemma FinishedAcyclic(g: Graph, finished: seq<string>, c: seq<string>)
    requires Topological(g, finished) && Distinct(finished) && IsCycle(g, c)
    ensures c[0] !in finished
  {
    hide Topological, Next;
    if k :| 0 <= k < |finished| && finished[k] == c[0] {
      DistinctPrefix(finished, k);
      PathDescends(g, finished, c, k);
    }
  }

  /** With all roots finished and none active, the finished formulae are the reachable ones. */
  lemma FinishedIsReachable(g: Graph, l: Ledger, n: string)
    requires Consistent(g, l) && forall r | r in g.roots :: r in l.finished
    ensures n in l.finished <==> Reachable(g, n)
  {
    if Reachable(g, n) {
      var r :| r in g.roots && Reaches(g, r, n);
      var p :| PathFromTo(g, p, r, n);
      FinishedIsClosed(g, l);
      ClosedHoldsPaths(g, l.complete, p);
    }
  }

  lemma FinishedIsClosed(g: Graph, l: Ledger)
    requires Consistent(g, l)
    ensures ClosedUnderNext(g, l.complete)
  {}

  lemma AllSeen(g: Graph, l: Ledger)
    requires Consistent(g, l) && l.active == [] && forall r | r in g.roots :: r in l.finished
    ensures SeesReachable(g, l.seen)
  {
    forall u, k: nat
      ensures (u, k) in l.seen <==> Reachable(g, u) && Kept(g, u, k)
    {
      SeenAt(g, l, u, k);
      FinishedIsReachable(g, l, u);
    }
  }

  lemma SeenAt(g: Graph, l: Ledger, u: string, k: nat)
    requires Consistent(g, l) && l.active == []
    ensures (u, k) in l.seen <==> u in l.finished && Kept(g, u, k)
  {}

  lemma LastEdge(g: Graph, n: string) returns (u: string)
    requires Reachable(g, n) && n !in g.roots
    ensures Reachable(g, u) && Next(g, u, n)
  {
    hide Next;
    var r :| r in g.roots && Reaches(g, r, n);
    var p :| PathFromTo(g, p, r, n);
    PathEnd(g, p);
    u := p[|p| - 2];
    assert PathFromTo(g, p[..|p| - 1], r, u);
  }

  lemma ListedIsMerged(g: Graph, l: Ledger, n: string)
    requires Consistent(g, l) && l.active == [] && n in l.order
    requires forall r | r in g.roots :: r in l.finished
    ensures n in l.merged && IsMergeOf(Occurrences(g, l.seen, n), l.merged[n])
  {
    hide Finished, Active, Reachable, IsMergeOf, Occurrences;
    OrderExact(g, l, n);
    var u := LastEdge(g, n);
    FinishedIsReachable(g, l, u);
    var k: nat :| EdgeTo(g, u, k, n);
    SeenAt(g, l, u, k);
    assert Target(g, (u, k).0, (u, k).1) in l.merged;
  }

  function Listed(order: seq<string>, merged: map<string, MergedTags>): seq<ExpandedDependency>
    requires forall n | n in order :: n in merged
  {
    seq(|order|, i requires 0 <= i < |order| =>
      ExpandedDependency(order[i], merged[order[i]].necessity, merged[order[i]].build, merged[order[i]].test))
  }

  lemma ExpansionFound(g: Graph, l: Ledger)
    requires Consistent(g, l) && l.active == [] && forall r | r in g.roots :: r in l.finished
    ensures forall n | n in l.order :: n in l.merged
    ensures IsExpansion(g, Listed(l.order, l.merged))
  {
    hide Consistent, Reachable, Next, SeesReachable, IsMergeOf, Occurrences, Lists, ResolvesReachable;
    forall n | n in l.order
      ensures n in l.merged && IsMergeOf(Occurrences(g, l.seen, n), l.merged[n])
    {
      ListedIsMerged(g, l, n);
    }
    var deps := Listed(l.order, l.merged);
    assert deps[..|deps|] == deps && l.order[..|l.order|] == l.order;
    OrderDistinct(g, l);
    forall n
      ensures Lists(deps, n) <==> Reachable(g, n) && n !in g.roots
    {
      OrderExact(g, l, n);
      ListsOrder(l.order, l.merged, |deps|, n);
    }
    forall i, v | 0 <= i < |deps| && Next(g, deps[i].name, v) && v !in g.roots
      ensures Lists(deps[..i], v)
    {
      assert |deps| == |l.order|;
      OrderTopological(g, l, i, v);
      ListsOrder(l.order, l.merged, i, v);
    }
    AllSeen(g, l);
    ExpansionMerges(g, l);
    assert MergesAll(g, l.seen, deps);
    forall c | IsCycle(g, c)
      ensures !Reachable(g, c[0])
    {
      NoReachableCycle(g, l, c);
    }
    AllResolved(g, l);
  }

  lemma AllResolved(g: Graph, l: Ledger)
    requires Consistent(g, l) && forall r | r in g.roots :: r in l.finished
    ensures ResolvesReachable(g)
  {
    hide Reachable, Resolved, MergedExactly, Active, Topological;
    forall u | Reachable(g, u)
      ensures Resolved(g, u)
    {
      FinishedIsReachable(g, l, u);
    }
  }

  lemma ListsOrder(order: seq<string>, merged: map<string, MergedTags>, i: nat, n: string)
    requires (forall n | n in order :: n in merged) && i <= |order|
    ensures Lists(Listed(order, merged)[..i], n) <==> n in order[..i]
  {
    var deps := Listed(order, merged)[..i];
    if n in order[..i] {
      var k :| 0 <= k < i && order[..i][k] == n;
      assert deps[k].name == n;
    }
    if Lists(deps, n) {
      var k :| 0 <= k < |deps| && deps[k].name == n;
      assert order[..i][k] == n;
    }
  }

  lemma ExpansionMerges(g: Graph, l: Ledger)
    requires forall n | n in l.order :: n in l.merged && IsMergeOf(Occurrences(g, l.seen, n), l.merged[n])
    ensures MergesAll(g, l.seen, Listed(l.order, l.merged))
  {}

  lemma OrderDistinct(g: Graph, l: Ledger)
    requires Consistent(g, l)
    ensures Distinct(l.order)
  {
    hide MergedExactly, Active, Topological;
    NonRootsDistinct(l.finished, g.roots);
  }

  lemma OrderExact(g: Graph, l: Ledger, n: string)
    requires Consistent(g, l) && forall r | r in g.roots :: r in l.finished
    ensures n in l.order <==> Reachable(g, n) && n !in g.roots
  {
    NonRootsExact(l.finished, g.roots, n);
    FinishedIsReachable(g, l, n);
    hide Finished, MergedExactly, Active, Reachable;
  }

  lemma OrderTopological(g: Graph, l: Ledger, i: nat, v: string)
    requires Consistent(g, l) && i < |l.order| && Next(g, l.order[i], v) && v !in g.roots
    ensures v in l.order[..i]
  {
    hide MergedExactly, Active, Next, Resolved, Reachable;
    NonRootsExact(l.finished, g.roots, l.order[i]);
    assert l.order[i] in l.order;
    var k :| 0 <= k < |l.finished| && l.finished[k] == l.order[i];
    assert v in l.finished[..k];
    NonRootsOrdered(l.finished, g.roots, i, k, v);
  }

  lemma NoReachableCycle(g: Graph, l: Ledger, c: seq<string>)
    requires Consistent(g, l) && IsCycle(g, c) && forall r | r in g.roots :: r in l.finished
    ensures !Reachable(g, c[0])
  {
    FinishedIsReachable(g, l, c[0]);
    if Reachable(g, c[0]) {
      hide MergedExactly, Active, IsCycle, Topological;
      FinishedAcyclic(g, l.finished, c);
    }
  }

  // ----- the whole expansion -----

  /** Pour mode drops what the caller did not ask to build or test. */
  predicate Wanted(mode: Mode, filter: EdgeFilter, d: ExpandedDependency) {
    mode.Pour? ==> (d.build ==> filter.includeBuild) && (d.test ==> filter.includeTest)
  }

  function WantedOf(mode: Mode, filter: EdgeFilter, deps: seq<ExpandedDependency>): seq<ExpandedDependency> {
    if deps == [] then []
    else
      var last := deps[|deps| - 1];
      WantedOf(mode, filter, deps[..|deps| - 1]) + (if Wanted(mode, filter, last) then [last] else [])
  }

  /** To pour, what is only for building or for testing is left out unless it is asked for; the order stays. */
  ghost predicate PartTold(mode: Mode, filter: EdgeFilter, full: seq<ExpandedDependency>, part: seq<ExpandedDependency>) {
    exists kept :: KeptTold(mode, filter, full, part, kept)
  }

  ghost predicate KeptTold(mode: Mode, filter: EdgeFilter, full: seq<ExpandedDependency>, part: seq<ExpandedDependency>, kept: seq<nat>) {
    && Rising(kept) && |kept| == |part|
    && (forall k | k in kept :: k < |full|)
    && (forall k: nat | k < |full| ::
          (k in kept <==> (mode.Pour? ==> (full[k].build ==> filter.includeBuild) && (full[k].test ==> filter.includeTest))))
    && forall j | 0 <= j < |kept| && kept[j] < |full| :: part[j] == full[kept[j]]
  }

  lemma {:induction false} WantedIsTold(mode: Mode, filter: EdgeFilter, full: seq<ExpandedDependency>)
    ensures PartTold(mode, filter, full, WantedOf(mode, filter, full))
  {
    if full == [] {
      assert KeptTold(mode, filter, full, [], []);
    } else {
      var n := |full| - 1;
      WantedIsTold(mode, filter, full[..n]);
      var kept :| KeptTold(mode, filter, full[..n], WantedOf(mode, filter, full[..n]), kept);
      OneMoreTold(mode, filter, full, WantedOf(mode, filter, full[..n]), kept);
    }
  }

  lemma OneMoreTold(mode: Mode, filter: EdgeFilter, full: seq<ExpandedDependency>, part: seq<ExpandedDependency>, kept: seq<nat>)
    requires full != [] && KeptTold(mode, filter, full[..|full| - 1], part, kept)
    ensures var n := |full| - 1;
            PartTold(mode, filter, full, part + if Wanted(mode, filter, full[n]) then [full[n]] else [])
  {
    var n := |full| - 1;
    assert forall j | 0 <= j < |kept| :: kept[j] in kept;
    if Wanted(mode, filter, full[n]) {
      var kept' := kept + [n];
      assert forall k :: k in kept' <==> k in kept || k == n;
      assert KeptTold(mode, filter, full, part + [full[n]], kept');
    } else {
      assert part + [] == part;
      assert KeptTold(mode, filter, full, part, kept);
    }
  }

  /** Searching the roots in order finds a cycle exactly when some root reaches one. */
  lemma {:induction false} HuntRootsExact(g: Graph, roots: seq<string>)
    requires ValidCatalog(g.catalog) && forall r | r in roots :: r in Names(g)
    ensures HuntRoots(g, roots).Some? <==> exists r | r in roots :: ReachesCycle(g, r)
  {
    hide ReachesCycle, Hunt;
    if roots != [] {
      var front, last := roots[..|roots| - 1], roots[|roots| - 1];
      assert roots == front + [last];
      HuntRootsExact(g, front);
      HuntExact(g, last);
    }
  }

  method ResolveRoots(c: Catalog, requested: seq<string>) returns (roots: seq<string>, missing: Option<string>)
    ensures missing.None? ==> RootNames(c, requested) == Some(roots)
    ensures missing.Some? ==> RootNames(c, requested).None? && Get(c, missing.value).None?
  {
    roots := [];
    for i := 0 to |requested|
      invariant RootNames(c, requested[..i]) == Some(roots)
    {
      assert requested[..i + 1][..i] == requested[..i];
      var formula := Get(c, requested[i]);
      if formula.None? {
        RootNamesFail(c, requested, i + 1);
        return roots, Some(requested[i]);
      }
      if formula.value.name !in roots {
        roots := roots + [formula.value.name];
      }
    }
    assert requested[..|requested|] == requested;
    missing := None;
  }

  lemma {:induction false} RootNamesFail(c: Catalog, requested: seq<string>, i: nat)
    requires i <= |requested| && RootNames(c, requested[..i]).None?
    ensures RootNames(c, requested).None?
    decreases |requested|
  {
    if i < |requested| {
      assert requested[..|requested| - 1][..i] == requested[..i];
      RootNamesFail(c, requested[..|requested| - 1], i);
    } else {
      assert requested[..i] == requested;
    }
  }

  lemma {:induction false} RootsAreNamed(c: Catalog, requested: seq<string>)
    requires ValidCatalog(c) && RootNames(c, requested).Some?
    ensures forall r | r in RootNames(c, requested).value :: r in c.byName
  {
    if requested != [] {
      RootsAreNamed(c, requested[..|requested| - 1]);
      GetIsCanonical(c, requested[|requested| - 1]);
    }
  }

  method VisitRoots(traversal: Traversal, roots: seq<string>) returns (error: Option<Error>)
    requires traversal.Valid() && traversal.active == [] && ValidCatalog(traversal.g.catalog)
    requires forall r | r in roots :: r in Names(traversal.g) && r in traversal.g.roots
    modifies traversal
    ensures error.None? ==> traversal.Valid() && traversal.active == [] && forall r | r in roots :: r in traversal.finished
    ensures Justified(traversal.g, error)
    ensures Closed(traversal.g) ==> error == CycleError(HuntRoots(traversal.g, roots))
  {
    hide Consistent, Closed, Hunt, IsCycle, Reachable, SameSeen;
    error := None;
    for i := 0 to |roots|
      invariant error == None && traversal.Valid() && traversal.active == []
      invariant forall r | r in roots[..i] :: r in traversal.finished
      invariant Closed(traversal.g) ==> HuntRoots(traversal.g, roots[..i]).None?
    {
      assert roots[..i + 1] == roots[..i] + [roots[i]];
      error := traversal.Visit(roots[i]);
      if error.Some? {
        if Closed(traversal.g) {
          HuntRootsFound(traversal.g, roots, i + 1);
        }
        return;
      }
    }
    assert roots[..|roots|] == roots;
  }

  lemma {:induction false} HuntRootsFound(g: Graph, roots: seq<string>, i: nat)
    requires ValidCatalog(g.catalog) && forall r | r in roots :: r in Names(g)
    requires i <= |roots| && HuntRoots(g, roots[..i]).Some?
    ensures HuntRoots(g, roots) == HuntRoots(g, roots[..i])
    decreases |roots|
  {
    if i < |roots| {
      assert roots[..|roots| - 1][..i] == roots[..i];
      HuntRootsFound(g, roots[..|roots| - 1], i);
    } else {
      assert roots[..i] == roots;
    }
  }

  /** Expands all dependencies of the requested formulae; `full` is the list before Pour mode drops any. */
  method Expand(c: Catalog, requested: seq<string>, host: Host, mode: Mode, filter: EdgeFilter)
    returns (expansion: Expansion, ghost full: seq<ExpandedDependency>)
    requires ValidCatalog(c)
    ensures expansion.Expanded? ==> !host.AllHosts? && RootNames(c, requested).Some?
    ensures expansion.Expanded? ==> IsExpansion(QueryGraph(c, host, filter, RootNames(c, requested).value), full)
    ensures expansion.Expanded? ==> expansion.dependencies == WantedOf(mode, filter, full)
    ensures expansion.Expanded? ==> ExpansionTold(QueryGraph(c, host, filter, RootNames(c, requested).value), full)
    ensures expansion.Expanded? ==> PartTold(mode, filter, full, expansion.dependencies)
    ensures expansion.Expanded? && host.Linux? ==> LinuxListsAll(QueryGraph(c, host, filter, RootNames(c, requested).value), full)
    ensures !host.AllHosts? && RootNames(c, requested).Some? ==>
              var g := QueryGraph(c, host, filter, RootNames(c, requested).value);
              && (expansion.Rejected? ==> Justified(g, Some(expansion.error)) && ErrorTold(g, expansion.error))
              && (forall r | r in RootNames(c, requested).value :: r in Names(g))
              && (Closed(g) ==>
                    (if expansion.Rejected? then Some(expansion.error) else None) ==
                    CycleError(HuntRoots(g, RootNames(c, requested).value)))
    ensures host.AllHosts? ==> expansion == Rejected(UniversalHost)
    ensures !host.AllHosts? && RootNames(c, requested).None? ==>
              expansion.Rejected? && expansion.error.MissingFormula? && Get(c, expansion.error.name).None?
  {
    hide Consistent, Closed, Hunt, IsExpansion, ExpansionTold, PartTold, LinuxListsAll, Justified, ErrorTold;
    full := [];
    if host.AllHosts? {
      return Rejected(UniversalHost), full;
    }
    var roots, missing := ResolveRoots(c, requested);
    if missing.Some? {
      return Rejected(MissingFormula(missing.value)), full;
    }
    RootsAreNamed(c, requested);
    var traversal := new Traversal(QueryGraph(c, host, filter, roots));
    var error := VisitRoots(traversal, roots);
    if error.Some? {
      ErrorIsTold(traversal.g, error.value);
      return Rejected(error.value), full;
    }
    ExpansionFound(traversal.g, traversal.ToLedger());
    full := Listed(traversal.order, traversal.merged);
    ExpansionIsTold(traversal.g, full);
    LinuxIsTold(traversal.g, full);
    WantedIsTold(mode, filter, full);
    var dependencies := Collect(traversal, mode, filter);
    return Expanded(dependencies), full;
  }

  /** The final loop: names in order, with their merged tags, filtered. */
  method Collect(traversal: Traversal, mode: Mode, filter: EdgeFilter) returns (dependencies: seq<ExpandedDependency>)
    requires forall n | n in traversal.order :: n in traversal.merged
    ensures dependencies == WantedOf(mode, filter, Listed(traversal.order, traversal.merged))
  {
    dependencies := [];
    ghost var full := Listed(traversal.order, traversal.merged);
    for i := 0 to |traversal.order|
      invariant dependencies == WantedOf(mode, filter, full[..i])
    {
      assert full[..i + 1][..i] == full[..i];
      var name := traversal.order[i];
      assert name in traversal.order;
      var merged := traversal.merged[name];
      var dependency := ExpandedDependency(name, merged.necessity, merged.build, merged.test);
      assert dependency == full[i];
      if !(mode.Pour? && ((dependency.build && !filter.includeBuild) || (dependency.test && !filter.includeTest))) {
        dependencies := dependencies + [dependency];
      }
    }
    assert full[..|full|] == full;
  }
}
