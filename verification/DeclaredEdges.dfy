/** Which declared dependencies a query follows, told from the catalog alone. */
module DeclaredEdges {
  import opened Text
  import opened Catalogs
  import opened DependencyGraphs

  // ----- which declared dependencies are edges -----

  /** On Linux every `uses_from_macos` dependency counts, on macOS one whose bound lies above the version. */
  ghost predicate Counts(d: UsesFromMacos, host: Host) {
    host.Linux? || (host.MacOs? && d.since.Version? && host.version < d.since.version)
  }

  /** Whether every bound that matters is known. */
  ghost predicate Decided(f: Formula, host: Host) {
    f.usesFromMacos != [] && !host.Linux? ==> host.MacOs? && forall d | d in f.usesFromMacos :: !d.since.Unknown?
  }

  ghost predicate Declares(f: Formula, host: Host, e: Edge) {
    || (exists d | d in f.dependencies :: e == Edge(d.name, d.tags))
    || (exists d | d in f.usesFromMacos && Counts(d, host) :: e == Edge(d.name, d.tags))
  }

  /** The edges are the dependencies at these places, in order, and those are all that count. */
  ghost predicate CountedAt(ds: seq<UsesFromMacos>, host: Host, edges: seq<Edge>, kept: seq<nat>) {
    && Rising(kept) && |edges| == |kept|
    && (forall k | k in kept :: k < |ds| && Counts(ds[k], host))
    && (forall k: nat | k < |ds| && Counts(ds[k], host) :: k in kept)
    && (forall j | 0 <= j < |kept| && kept[j] < |ds| :: edges[j] == Edge(ds[kept[j]].name, ds[kept[j]].tags))
  }

  lemma {:induction false} MacosEdgesCounted(ds: seq<UsesFromMacos>, host: Host) returns (kept: seq<nat>)
    ensures MacosEdges(ds, host).Some? <==>
            ds == [] || host.Linux? || (host.MacOs? && forall d | d in ds :: !d.since.Unknown?)
    ensures MacosEdges(ds, host).Some? ==> CountedAt(ds, host, MacosEdges(ds, host).value, kept)
    decreases |ds|
  {
    kept := [];
    if ds != [] {
      var rest := MacosEdgesCounted(ds[1..], host);
      assert forall d | d in ds :: d == ds[0] || d in ds[1..];
      if MacosEdges(ds, host).Some? {
        kept := OneMoreCounted(ds, host, MacosEdges(ds[1..], host).value, rest);
      }
    }
  }

  lemma OneMoreCounted(ds: seq<UsesFromMacos>, host: Host, edges: seq<Edge>, rest: seq<nat>) returns (kept: seq<nat>)
    requires ds != [] && CountedAt(ds[1..], host, edges, rest)
    ensures CountedAt(ds, host, (if Counts(ds[0], host) then [Edge(ds[0].name, ds[0].tags)] else []) + edges, kept)
  {
    hide Counts;
    var shifted := seq(|rest|, i requires 0 <= i < |rest| => rest[i] + 1);
    ShiftedCounted(ds, host, edges, rest, shifted);
    if Counts(ds[0], host) {
      kept := [0] + shifted;
      FirstCounted(ds, host, edges, shifted);
    } else {
      kept := shifted;
      assert [] + edges == edges;
    }
  }

  lemma FirstCounted(ds: seq<UsesFromMacos>, host: Host, edges: seq<Edge>, shifted: seq<nat>)
    requires ds != [] && Counts(ds[0], host) && Rising(shifted) && |edges| == |shifted|
    requires forall k | k in shifted :: 0 < k < |ds| && Counts(ds[k], host)
    requires forall k: nat | 0 < k < |ds| && Counts(ds[k], host) :: k in shifted
    requires forall j | 0 <= j < |shifted| && shifted[j] < |ds| :: edges[j] == Edge(ds[shifted[j]].name, ds[shifted[j]].tags)
    ensures CountedAt(ds, host, [Edge(ds[0].name, ds[0].tags)] + edges, [0] + shifted)
  {
    hide Counts;
    var kept := [0] + shifted;
    assert forall k :: k in kept <==> k == 0 || k in shifted;
    assert Rising(kept) by {
      assert forall j | 1 <= j < |kept| :: kept[j] == shifted[j - 1] && kept[j] in shifted;
    }
    forall j | 0 <= j < |kept| && kept[j] < |ds|
      ensures ([Edge(ds[0].name, ds[0].tags)] + edges)[j] == Edge(ds[kept[j]].name, ds[kept[j]].tags)
    {
      if j > 0 {
        assert kept[j] == shifted[j - 1];
      }
    }
  }

  lemma ShiftedCounted(ds: seq<UsesFromMacos>, host: Host, edges: seq<Edge>, rest: seq<nat>, shifted: seq<nat>)
    requires ds != [] && CountedAt(ds[1..], host, edges, rest)
    requires |shifted| == |rest| && forall i | 0 <= i < |rest| :: shifted[i] == rest[i] + 1
    ensures Rising(shifted) && |edges| == |shifted|
    ensures forall k | k in shifted :: 0 < k < |ds| && Counts(ds[k], host)
    ensures forall k: nat | 0 < k < |ds| && Counts(ds[k], host) :: k in shifted
    ensures forall j | 0 <= j < |shifted| && shifted[j] < |ds| :: edges[j] == Edge(ds[shifted[j]].name, ds[shifted[j]].tags)
  {
    hide Counts;
    forall k: nat | 0 < k < |ds| && Counts(ds[k], host)
      ensures k in shifted
    {
      assert ds[1..][k - 1] == ds[k] && k - 1 in rest;
      var j :| 0 <= j < |rest| && rest[j] == k - 1;
      assert shifted[j] == k;
    }
    forall k | k in shifted
      ensures 0 < k < |ds| && Counts(ds[k], host)
    {
      var j :| 0 <= j < |rest| && shifted[j] == k;
      assert rest[j] in rest && ds[1..][rest[j]] == ds[k];
    }
  }

  /** The edges are the plain dependencies, and after them those of the others that count. */
  lemma EdgesInOrder(f: Formula, host: Host) returns (kept: seq<nat>)
    ensures Edges(f, host).Some? <==> Decided(f, host)
    ensures Edges(f, host).Some? ==>
              && |Edges(f, host).value| >= |f.dependencies|
              && (forall i | 0 <= i < |f.dependencies| ::
                    Edges(f, host).value[i] == Edge(f.dependencies[i].name, f.dependencies[i].tags))
              && CountedAt(f.usesFromMacos, host, Edges(f, host).value[|f.dependencies|..], kept)
  {
    kept := MacosEdgesCounted(f.usesFromMacos, host);
    if Edges(f, host).Some? {
      assert Edges(f, host).value[|f.dependencies|..] == MacosEdges(f.usesFromMacos, host).value;
    }
  }

  /** Every declared dependency that counts is an edge, with its tags, and nothing else is. */
  lemma EdgesExact(f: Formula, host: Host)
    ensures Edges(f, host).Some? <==> Decided(f, host)
    ensures Edges(f, host).Some? ==> forall e :: e in Edges(f, host).value <==> Declares(f, host, e)
  {
    var kept := EdgesInOrder(f, host);
    if Edges(f, host).Some? {
      var es := Edges(f, host).value;
      hide Edges, Declares, CountedAt;
      forall e
        ensures e in es <==> Declares(f, host, e)
      {
        if e in es {
          var i :| 0 <= i < |es| && es[i] == e;
          EdgeIsDeclared(f, host, es, kept, i);
        }
        if Declares(f, host, e) {
          DeclaredIsEdge(f, host, es, kept, e);
        }
      }
    }
  }

  lemma EdgeIsDeclared(f: Formula, host: Host, es: seq<Edge>, kept: seq<nat>, i: nat)
    requires |es| >= |f.dependencies| && CountedAt(f.usesFromMacos, host, es[|f.dependencies|..], kept)
    requires forall k | 0 <= k < |f.dependencies| :: es[k] == Edge(f.dependencies[k].name, f.dependencies[k].tags)
    requires i < |es|
    ensures Declares(f, host, es[i])
  {
    hide Counts;
    var n := |f.dependencies|;
    if i < n {
      assert f.dependencies[i] in f.dependencies;
    } else {
      assert es[n..][i - n] == es[i] && kept[i - n] in kept;
      assert f.usesFromMacos[kept[i - n]] in f.usesFromMacos;
    }
  }

  lemma DeclaredIsEdge(f: Formula, host: Host, es: seq<Edge>, kept: seq<nat>, e: Edge)
    requires |es| >= |f.dependencies| && CountedAt(f.usesFromMacos, host, es[|f.dependencies|..], kept)
    requires forall k | 0 <= k < |f.dependencies| :: es[k] == Edge(f.dependencies[k].name, f.dependencies[k].tags)
    requires Declares(f, host, e)
    ensures e in es
  {
    hide Counts, CountedAt;
    var n := |f.dependencies|;
    if d :| d in f.dependencies && e == Edge(d.name, d.tags) {
      var i :| 0 <= i < n && f.dependencies[i] == d;
      assert es[i] == e;
    } else {
      var d :| d in f.usesFromMacos && Counts(d, host) && e == Edge(d.name, d.tags);
      CountedIsEdge(f.usesFromMacos, host, es[n..], kept, d);
      assert forall x | x in es[n..] :: x in es;
    }
  }

  lemma CountedIsEdge(ds: seq<UsesFromMacos>, host: Host, edges: seq<Edge>, kept: seq<nat>, d: UsesFromMacos)
    requires CountedAt(ds, host, edges, kept) && d in ds && Counts(d, host)
    ensures Edge(d.name, d.tags) in edges
  {
    var k: nat :| k < |ds| && ds[k] == d;
    assert k in kept;
    var j :| 0 <= j < |kept| && kept[j] == k;
    assert edges[j] == Edge(d.name, d.tags);
  }

  // ----- which edges a query follows -----

  ghost predicate Allows(filter: EdgeFilter, tag: Tag, rootEdge: bool) {
    match tag
    case Build => filter.includeBuild
    case Test => filter.includeTest && (rootEdge || !filter.rootOnlyTest)
    case Recommended => true
    case Optional => filter.includeOptional
  }

  /** An edge without tags is followed, one with tags if one of them is allowed, and with `skipRecommended` none
      that is recommended. */
  ghost predicate Admits(filter: EdgeFilter, tags: seq<Tag>, rootEdge: bool) {
    && (filter.skipRecommended ==> Recommended !in tags)
    && (tags == [] || exists tag | tag in tags :: Allows(filter, tag, rootEdge))
  }

  lemma IncludesExact(filter: EdgeFilter, tags: seq<Tag>, rootEdge: bool)
    ensures filter.Includes(tags, rootEdge) <==> Admits(filter, tags, rootEdge)
  {
    if tags != [] {
      assert tags[0] in tags;
    }
  }

  /** The query goes from `u` to `v` by the declared dependency `e`. */
  ghost predicate DependsBy(g: Graph, u: string, e: Edge, v: string) {
    && Get(g.catalog, u).Some? && Get(g.catalog, e.name).Some? && Get(g.catalog, e.name).value.name == v
    && Decided(Get(g.catalog, u).value, g.host) && Declares(Get(g.catalog, u).value, g.host, e)
    && Admits(g.filter, e.tags, u in g.roots)
  }

  ghost predicate Depends(g: Graph, u: string, v: string) {
    exists e :: DependsBy(g, u, e, v)
  }

  lemma DependsByExact(g: Graph, u: string, e: Edge, v: string)
    ensures DependsBy(g, u, e, v) <==> exists i: nat :: i < |EdgeList(g, u)| && EdgeTo(g, u, i, v) && EdgeList(g, u)[i] == e
  {
    hide EdgeFilter.Includes, Admits, Declares, Decided, Edges;
    if Get(g.catalog, u).Some? {
      EdgesExact(Get(g.catalog, u).value, g.host);
    }
    IncludesExact(g.filter, e.tags, u in g.roots);
    if DependsBy(g, u, e, v) {
      var i: nat :| i < |EdgeList(g, u)| && EdgeList(g, u)[i] == e;
      assert EdgeTo(g, u, i, v);
    }
  }

  lemma NextExact(g: Graph, u: string, v: string)
    ensures Next(g, u, v) <==> Depends(g, u, v)
  {
    hide DependsBy;
    if i: nat :| EdgeTo(g, u, i, v) {
      DependsByExact(g, u, EdgeList(g, u)[i], v);
    }
    if e :| DependsBy(g, u, e, v) {
      DependsByExact(g, u, e, v);
    }
  }

  /** Every bound is decided and every declared dependency that is followed leads to a formula. */
  lemma ResolvedExact(g: Graph, u: string)
    ensures Resolved(g, u) <==>
            && Get(g.catalog, u).Some? && Decided(Get(g.catalog, u).value, g.host)
            && forall e | Declares(Get(g.catalog, u).value, g.host, e) && Admits(g.filter, e.tags, u in g.roots) ::
                 Get(g.catalog, e.name).Some?
  {
    hide EdgeFilter.Includes, Admits, Declares, Decided, Edges;
    if Get(g.catalog, u).Some? {
      EdgesExact(Get(g.catalog, u).value, g.host);
      forall e: Edge
        ensures g.filter.Includes(e.tags, u in g.roots) <==> Admits(g.filter, e.tags, u in g.roots)
      {
        IncludesExact(g.filter, e.tags, u in g.roots);
      }
      var es := EdgeList(g, u);
      assert forall i | 0 <= i < |es| :: es[i] in es && (Included(g, u, i) <==> g.filter.Includes(es[i].tags, u in g.roots));
      forall e | e in es && g.filter.Includes(e.tags, u in g.roots) && Resolved(g, u)
        ensures Get(g.catalog, e.name).Some?
      {
        var i :| 0 <= i < |es| && es[i] == e;
        assert Kept(g, u, i);
      }
    }
  }

  // ----- what a query reaches -----

  /** Each name depends on the next. */
  ghost predicate Chain(g: Graph, p: seq<string>) {
    forall i | 0 <= i < |p| - 1 :: Depends(g, p[i], p[i + 1])
  }

  ghost predicate Leads(g: Graph, u: string, v: string) {
    exists p :: p != [] && Chain(g, p) && p[0] == u && p[|p| - 1] == v
  }

  /** By one dependency at least. */
  ghost predicate LeadsOn(g: Graph, u: string, v: string) {
    exists p :: |p| > 1 && Chain(g, p) && p[0] == u && p[|p| - 1] == v
  }

  ghost predicate RootLeads(g: Graph, v: string) {
    exists r | r in g.roots :: Leads(g, r, v)
  }

  lemma ChainExact(g: Graph, p: seq<string>)
    ensures IsPath(g, p) <==> p != [] && Chain(g, p)
  {
    hide Next, Depends;
    forall i: nat | i + 1 < |p|
      ensures StepAt(g, p, i) <==> Depends(g, p[i], p[i + 1])
    {
      NextExact(g, p[i], p[i + 1]);
    }
  }

  lemma LeadsExact(g: Graph, u: string, v: string)
    ensures Reaches(g, u, v) <==> Leads(g, u, v)
    ensures ReachesOn(g, u, v) <==> LeadsOn(g, u, v)
  {
    hide IsPath, Chain;
    forall p
      ensures IsPath(g, p) <==> p != [] && Chain(g, p)
    {
      ChainExact(g, p);
    }
    if p :| PathFromTo(g, p, u, v) {
      NotEmpty(g, p);
    }
    if Leads(g, u, v) {
      var p :| p != [] && Chain(g, p) && p[0] == u && p[|p| - 1] == v;
      assert PathFromTo(g, p, u, v);
    }
    if LeadsOn(g, u, v) {
      var p :| |p| > 1 && Chain(g, p) && p[0] == u && p[|p| - 1] == v;
      assert PathFromTo(g, p, u, v);
    }
  }

  lemma NotEmpty(g: Graph, p: seq<string>)
    requires IsPath(g, p)
    ensures p != []
  {}

  lemma RootLeadsExact(g: Graph, v: string)
    ensures Reachable(g, v) <==> RootLeads(g, v)
  {
    hide Reaches, Leads;
    forall r
      ensures Reaches(g, r, v) <==> Leads(g, r, v)
    {
      LeadsExact(g, r, v);
    }
  }
}
