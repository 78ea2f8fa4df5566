/** The formula catalog and the dependency edges it declares. */
module Catalogs {
  import opened Text

  datatype Tag = Build | Test | Recommended | Optional

  /** A `since:` bound after parsing: absent, a known macOS version, or text that is none. */
  datatype Since = Unbounded | Version(version: nat) | Unknown

  datatype Dependency = Dependency(name: string, tags: seq<Tag>)

  datatype UsesFromMacos = UsesFromMacos(name: string, tags: seq<Tag>, since: Since)

  datatype Formula = Formula(
    name: string,
    aliases: seq<string>,
    oldnames: seq<string>,
    dependencies: seq<Dependency>,
    usesFromMacos: seq<UsesFromMacos>)

  datatype Host = Linux | MacOs(version: nat) | AllHosts

  // ----- lookup -----

  datatype Catalog = Catalog(
    formulae: seq<Formula>,
    byName: map<string, nat>,
    aliases: map<string, string>,
    oldnames: map<string, string>)

  /** Every indexed name leads to the formula of that name. */
  ghost predicate ValidCatalog(c: Catalog) {
    forall n | n in c.byName :: c.byName[n] < |c.formulae| && c.formulae[c.byName[n]].name == n
  }

  /** Exact name first, then alias, then old name. */
  function Get(c: Catalog, name: string): Option<Formula> {
    if name in c.byName then At(c, c.byName[name])
    else if name in c.aliases && c.aliases[name] in c.byName then At(c, c.byName[c.aliases[name]])
    else if name in c.oldnames && c.oldnames[name] in c.byName then At(c, c.byName[c.oldnames[name]])
    else None
  }

  function At(c: Catalog, index: nat): Option<Formula> {
    if index < |c.formulae| then Some(c.formulae[index]) else None
  }

  /** The name of the last formula among `formulae` that lists `name` as an alias, or as an old name. */
  function LastListing(formulae: seq<Formula>, name: string, old_: bool): Option<string> {
    if formulae == [] then None
    else
      var last := formulae[|formulae| - 1];
      if name in (if old_ then last.oldnames else last.aliases) then Some(last.name)
      else LastListing(formulae[..|formulae| - 1], name, old_)
  }

  function Listed(names: map<string, string>, name: string): Option<string> {
    if name in names then Some(names[name]) else None
  }

  /** Each name leads to the last formula that has it; aliases and old names to the last that lists them. */
  ghost predicate Indexed(c: Catalog) {
    && (forall i | 0 <= i < |c.formulae| :: c.formulae[i].name in c.byName && i <= c.byName[c.formulae[i].name])
    && (forall n | n in c.byName :: c.byName[n] < |c.formulae| && c.formulae[c.byName[n]].name == n)
    && (forall n :: Listed(c.aliases, n) == LastListing(c.formulae, n, false))
    && forall n :: Listed(c.oldnames, n) == LastListing(c.formulae, n, true)
  }

  method IndexCatalog(formulae: seq<Formula>) returns (c: Catalog)
    ensures c.formulae == formulae && Indexed(c) && ValidCatalog(c)
  {
    c := Catalog([], map[], map[], map[]);
    for i := 0 to |formulae|
      invariant c.formulae == formulae[..i] && Indexed(c)
    {
      hide Indexed;
      assert formulae[..i + 1] == formulae[..i] + [formulae[i]];
      var aliases := ListAll(c.aliases, formulae[i].aliases, formulae[i].name);
      var oldnames := ListAll(c.oldnames, formulae[i].oldnames, formulae[i].name);
      OneMoreIndexed(c, formulae[i], aliases, oldnames);
      c := Catalog(formulae[..i + 1], c.byName[formulae[i].name := i], aliases, oldnames);
    }
    assert formulae[..|formulae|] == formulae;
  }

  method ListAll(before: map<string, string>, names: seq<string>, formula: string) returns (after: map<string, string>)
    ensures forall n :: Listed(after, n) == if n in names then Some(formula) else Listed(before, n)
  {
    after := before;
    for j := 0 to |names|
      invariant forall n :: Listed(after, n) == if n in names[..j] then Some(formula) else Listed(before, n)
    {
      assert names[..j + 1] == names[..j] + [names[j]];
      after := after[names[j] := formula];
    }
    assert names[..|names|] == names;
  }

  lemma OneMoreIndexed(c: Catalog, f: Formula, aliases: map<string, string>, oldnames: map<string, string>)
    requires Indexed(c)
    requires forall n :: Listed(aliases, n) == if n in f.aliases then Some(f.name) else Listed(c.aliases, n)
    requires forall n :: Listed(oldnames, n) == if n in f.oldnames then Some(f.name) else Listed(c.oldnames, n)
    ensures Indexed(Catalog(c.formulae + [f], c.byName[f.name := |c.formulae|], aliases, oldnames))
  {
    assert (c.formulae + [f])[..|c.formulae|] == c.formulae;
  }

  /** Whether some formula has the name, or lists it as an alias or an old name. */
  predicate Known(formulae: seq<Formula>, name: string) {
    exists i | 0 <= i < |formulae| ::
      formulae[i].name == name || name in formulae[i].aliases || name in formulae[i].oldnames
  }

  /** The formula lists the name, and none after it does. */
  ghost predicate LastLister(formulae: seq<Formula>, name: string, old_: bool, i: nat)
    requires i < |formulae|
  {
    && name in (if old_ then formulae[i].oldnames else formulae[i].aliases)
    && forall j | i < j < |formulae| :: name !in (if old_ then formulae[j].oldnames else formulae[j].aliases)
  }

  lemma {:induction false} LastListingExact(formulae: seq<Formula>, name: string, old_: bool)
    ensures LastListing(formulae, name, old_).Some? <==>
              exists i | 0 <= i < |formulae| :: name in (if old_ then formulae[i].oldnames else formulae[i].aliases)
    ensures LastListing(formulae, name, old_).Some? ==>
              exists i | 0 <= i < |formulae| :: formulae[i].name == LastListing(formulae, name, old_).value
                                                && LastLister(formulae, name, old_, i)
  {
    if formulae != [] {
      var last := |formulae| - 1;
      var front := formulae[..last];
      LastListingExact(front, name, old_);
      assert forall i | 0 <= i < last :: front[i] == formulae[i];
    }
  }

  /** A lookup finds something exactly if the name is known; a formula's own name is never shadowed by an
      alias or an old name of another. */
  lemma GetFindsKnown(c: Catalog, name: string)
    requires Indexed(c)
    ensures Get(c, name).Some? <==> Known(c.formulae, name)
    ensures (exists i | 0 <= i < |c.formulae| :: c.formulae[i].name == name) ==>
              Get(c, name).Some? && Get(c, name).value.name == name
  {
    LastListingExact(c.formulae, name, false);
    LastListingExact(c.formulae, name, true);
    assert Listed(c.aliases, name) == LastListing(c.formulae, name, false);
    assert Listed(c.oldnames, name) == LastListing(c.formulae, name, true);
  }

  /** An alias is preferred to an old name, and of several formulae that list it the last counts. */
  lemma GetPrefers(c: Catalog, name: string)
    requires Indexed(c) && Get(c, name).Some?
    ensures Get(c, name).value.name == name ||
            exists i | 0 <= i < |c.formulae| ::
              && c.formulae[i].name == Get(c, name).value.name
              && (LastLister(c.formulae, name, false, i) ||
                  (LastLister(c.formulae, name, true, i) && forall j | 0 <= j < |c.formulae| :: name !in c.formulae[j].aliases))
  {
    LastListingExact(c.formulae, name, false);
    LastListingExact(c.formulae, name, true);
    assert Listed(c.aliases, name) == LastListing(c.formulae, name, false);
    assert Listed(c.oldnames, name) == LastListing(c.formulae, name, true);
  }

  /** Looking a formula up again by its own name finds the same formula. */
  lemma GetIsCanonical(c: Catalog, name: string)
    requires ValidCatalog(c) && Get(c, name).Some?
    ensures Get(c, name).value.name in c.byName
    ensures Get(c, Get(c, name).value.name) == Get(c, name)
  {}

  // ----- edges -----

  datatype Edge = Edge(name: string, tags: seq<Tag>)

  /** Whether a `uses_from_macos` dependency is a real one on the host; `None` when that is undecided. */
  function IncludeUsesFromMacos(d: UsesFromMacos, host: Host): Option<bool> {
    match host
    case Linux => Some(true)
    case MacOs(version) =>
      (match d.since
       case Unbounded => Some(false)
       case Version(bound) => Some(version < bound)
       case Unknown => None)
    case AllHosts => None
  }

  function MacosEdges(ds: seq<UsesFromMacos>, host: Host): Option<seq<Edge>> {
    if ds == [] then Some([])
    else
      match IncludeUsesFromMacos(ds[0], host)
      case None => None
      case Some(included) =>
        match MacosEdges(ds[1..], host)
        case None => None
        case Some(rest) => Some((if included then [Edge(ds[0].name, ds[0].tags)] else []) + rest)
  }

  function Edges(f: Formula, host: Host): Option<seq<Edge>> {
    match MacosEdges(f.usesFromMacos, host)
    case None => None
    case Some(macos) =>
      Some(seq(|f.dependencies|, i requires 0 <= i < |f.dependencies| => Edge(f.dependencies[i].name, f.dependencies[i].tags)) + macos)
  }

  datatype EdgeFilter = EdgeFilter(
    includeBuild: bool,
    includeTest: bool,
    includeOptional: bool,
    skipRecommended: bool,
    rootOnlyTest: bool)
  {
    predicate Includes(tags: seq<Tag>, rootEdge: bool) {
      var recommended, build, test, optional := Recommended in tags, Build in tags, Test in tags, Optional in tags;
      if skipRecommended && recommended then false
      else
        || (!recommended && !build && !test && !optional)
        || recommended
        || (build && includeBuild)
        || (test && includeTest && (!rootOnlyTest || rootEdge))
        || (optional && includeOptional)
    }
  }

  // ----- merged tags -----

  datatype Necessity = OptionalDep | RecommendedDep | RequiredDep {
    function Rank(): nat {
      match this
      case OptionalDep => 0
      case RecommendedDep => 1
      case RequiredDep => 2
    }
  }

  function NecessityOf(tags: seq<Tag>): Necessity {
    if Recommended in tags then RecommendedDep
    else if Optional in tags then OptionalDep
    else RequiredDep
  }

  datatype MergedTags = MergedTags(necessity: Necessity, build: bool, test: bool)

  function FromTags(tags: seq<Tag>): MergedTags {
    MergedTags(NecessityOf(tags), Build in tags, Test in tags)
  }

  function Merge(m: MergedTags, other: MergedTags): MergedTags {
    MergedTags(
      if m.necessity.Rank() < other.necessity.Rank() then other.necessity else m.necessity,
      m.build && other.build,
      m.test || other.test)
  }
}
