/** The installed formulae, who depends on whom among them, and uninstalling. */
module Installed {
  import opened Text

  datatype Keg = Keg(
    version: string,
    runtimeDependencies: seq<string>,
    onRequest: bool,
    linked: bool,
    opt: bool,
    pinned: bool)

  /** Every installed formula with its kegs, oldest first. */
  type State = map<string, seq<Keg>>

  /** A rack without kegs is not scanned as installed. */
  ghost predicate Scanned(state: State) {
    forall n | n in state :: state[n] != []
  }

  // ----- who depends on whom -----

  /** What follows the last slash. */
  function LastSegment(s: string): string
    decreases |s|
  {
    if '/' !in s then s else LastSegment(AfterSlash(s))
  }

  function AfterSlash(s: string): (rest: string)
    requires '/' in s
    ensures |rest| < |s|
  {
    if s[0] == '/' then s[1..] else AfterSlash(s[1..])
  }

  /** A receipt may name a dependency with its tap in front. */
  predicate DependencyMatches(recorded: string, requested: string) {
    recorded == requested || LastSegment(recorded) == LastSegment(requested)
  }

  predicate NamesDependency(kegs: seq<Keg>, name: string) {
    exists keg | keg in kegs :: exists d | d in keg.runtimeDependencies :: DependencyMatches(d, name)
  }

  function DependentsOf(state: State, name: string): set<string> {
    set f | f in state && NamesDependency(state[f], name)
  }

  // ----- the same told from the receipts -----

  /** `b` is what stands behind the last slash, or all of `s` if it has none. */
  ghost predicate IsLastSegment(s: string, b: string) {
    '/' !in b && (s == b || exists front :: s == front + "/" + b)
  }

  /** A receipt names a formula with or without the tap that it came from. */
  ghost predicate SameFormula(recorded: string, name: string) {
    exists b :: IsLastSegment(recorded, b) && IsLastSegment(name, b)
  }

  ghost predicate Needs(kegs: seq<Keg>, name: string) {
    exists keg, d | keg in kegs && d in keg.runtimeDependencies :: SameFormula(d, name)
  }

  lemma {:induction false} AfterFirstSlash(s: string) returns (front: string)
    requires '/' in s
    ensures s == front + "/" + AfterSlash(s) && '/' !in front
  {
    if s[0] == '/' {
      front := "";
      assert s == "/" + s[1..];
    } else {
      var rest := AfterFirstSlash(s[1..]);
      front := [s[0]] + rest;
      var after := AfterSlash(s[1..]);
      assert front + "/" + after == [s[0]] + (rest + "/" + after);
      assert s == [s[0]] + s[1..];
    }
  }

  lemma {:induction false} LastSegmentIs(s: string)
    ensures IsLastSegment(s, LastSegment(s))
    decreases |s|
  {
    if '/' in s {
      var front := AfterFirstSlash(s);
      var rest := AfterSlash(s);
      LastSegmentIs(rest);
      if rest == LastSegment(rest) {
        assert s == front + "/" + LastSegment(s);
      } else {
        var more :| rest == more + "/" + LastSegment(rest);
        assert s == (front + "/" + more) + "/" + LastSegment(s);
      }
    }
  }

  lemma OneLastSegment(s: string, a: string, b: string)
    requires IsLastSegment(s, a) && IsLastSegment(s, b)
    ensures a == b
  {
    if |a| < |b| {
      LongerHasSlash(s, a, b);
    } else if |b| < |a| {
      LongerHasSlash(s, b, a);
    } else {
      assert a == s[|s| - |a|..] == b;
    }
  }

  lemma LongerHasSlash(s: string, a: string, b: string)
    requires IsLastSegment(s, a) && |a| < |b| <= |s| && b == s[|s| - |b|..]
    ensures '/' in b
  {
    var front :| s == front + "/" + a;
    assert b[|b| - |a| - 1] == s[|front|] == '/';
  }

  lemma MatchesExactly(recorded: string, name: string)
    ensures DependencyMatches(recorded, name) <==> SameFormula(recorded, name)
  {
    LastSegmentIs(recorded);
    LastSegmentIs(name);
    if b :| IsLastSegment(recorded, b) && IsLastSegment(name, b) {
      OneLastSegment(recorded, b, LastSegment(recorded));
      OneLastSegment(name, b, LastSegment(name));
    }
  }

  lemma DependentsExact(state: State, name: string)
    ensures forall f :: f in DependentsOf(state, name) <==> f in state && Needs(state[f], name)
  {
    hide DependencyMatches, SameFormula;
    forall d
      ensures DependencyMatches(d, name) <==> SameFormula(d, name)
    {
      MatchesExactly(d, name);
    }
  }

  // ----- removing kegs -----

  function FirstWhere(kegs: seq<Keg>, holds: Keg -> bool): seq<Keg> {
    if kegs == [] then []
    else if holds(kegs[0]) then [kegs[0]]
    else FirstWhere(kegs[1..], holds)
  }

  /** What an uninstall removes: all kegs by force, else the linked one, the opt-linked one or the latest. */
  function Targets(kegs: seq<Keg>, force: bool): seq<Keg> {
    if force then kegs
    else
      var linked, opt := FirstWhere(kegs, (k: Keg) => k.linked), FirstWhere(kegs, (k: Keg) => k.opt);
      if linked != [] then linked
      else if opt != [] then opt
      else if kegs != [] then [kegs[|kegs| - 1]]
      else []
  }

  ghost predicate IsFirst(kegs: seq<Keg>, i: nat, holds: Keg -> bool)
    requires i < |kegs|
  {
    holds(kegs[i]) && forall j | 0 <= j < i :: !holds(kegs[j])
  }

  lemma {:induction false} FirstWhereExact(kegs: seq<Keg>, holds: Keg -> bool)
    ensures if FirstWhere(kegs, holds) == [] then forall i | 0 <= i < |kegs| :: !holds(kegs[i])
            else exists i | 0 <= i < |kegs| :: IsFirst(kegs, i, holds) && FirstWhere(kegs, holds) == [kegs[i]]
  {
    if kegs != [] {
      if holds(kegs[0]) {
        assert IsFirst(kegs, 0, holds);
      } else {
        FirstWhereExact(kegs[1..], holds);
        if FirstWhere(kegs[1..], holds) != [] {
          var i :| 0 <= i < |kegs| - 1 && IsFirst(kegs[1..], i, holds) && FirstWhere(kegs[1..], holds) == [kegs[1..][i]];
          assert forall j | 0 < j < i + 1 :: kegs[j] == kegs[1..][j - 1];
          assert IsFirst(kegs, i + 1, holds);
        } else {
          assert forall j | 0 < j < |kegs| :: kegs[j] == kegs[1..][j - 1];
        }
      }
    }
  }

  /** Without force an uninstall removes one keg: the first linked one; if none is linked, the first that `opt`
      leads to; if there is none of these either, the latest. */
  lemma TargetsExact(kegs: seq<Keg>)
    requires kegs != []
    ensures exists i | 0 <= i < |kegs| ::
              Targets(kegs, false) == [kegs[i]] && IsTarget(kegs, i)
  {
    FirstWhereExact(kegs, (k: Keg) => k.linked);
    FirstWhereExact(kegs, (k: Keg) => k.opt);
  }

  /** The keg that an uninstall without force is about. */
  ghost predicate IsTarget(kegs: seq<Keg>, i: nat)
    requires i < |kegs|
  {
    if exists k | k in kegs :: k.linked then IsFirst(kegs, i, (k: Keg) => k.linked)
    else if exists k | k in kegs :: k.opt then IsFirst(kegs, i, (k: Keg) => k.opt)
    else i == |kegs| - 1
  }

  predicate Targeted(keg: Keg, targets: seq<Keg>) {
    exists t | t in targets :: t.version == keg.version
  }

  function Without(kegs: seq<Keg>, targets: seq<Keg>): seq<Keg> {
    if kegs == [] then []
    else
      (if Targeted(kegs[0], targets) then [] else [kegs[0]]) + Without(kegs[1..], targets)
  }

  function Remaining(kegs: seq<Keg>, force: bool): seq<Keg> {
    Without(kegs, Targets(kegs, force))
  }

  /** The installed state after the removal transaction has gone through. */
  function AfterRemoval(state: State, names: set<string>, force: bool): State {
    map n | n in state && (n in names ==> |Targets(state[n], force)| != |state[n]|) ::
      if n in names then Remaining(state[n], force) else state[n]
  }

  lemma ForcedRemoval(state: State, names: set<string>)
    ensures AfterRemoval(state, names, true) == state - names
  {}

  lemma {:induction false} WithoutIsPart(kegs: seq<Keg>, targets: seq<Keg>)
    ensures forall k | k in Without(kegs, targets) :: k in kegs
  {
    if kegs != [] {
      WithoutIsPart(kegs[1..], targets);
    }
  }

  /** In order, the kegs of another version than the one at `i`. */
  ghost predicate OthersLeft(kegs: seq<Keg>, i: nat, left: seq<Keg>, kept: seq<nat>)
    requires i < |kegs|
  {
    && Rising(kept) && |kept| == |left|
    && (forall k | k in kept :: k < |kegs|)
    && (forall k: nat | k < |kegs| :: k in kept <==> kegs[k].version != kegs[i].version)
    && (forall j | 0 <= j < |kept| && kept[j] < |kegs| :: left[j] == kegs[kept[j]])
  }

  /** What an uninstall leaves of a rack: nothing by force or of a single keg, else all but one version. */
  ghost predicate RackTold(kegs: seq<Keg>, force: bool, left: Option<seq<Keg>>) {
    if force || |kegs| <= 1 then left.None?
    else left.Some? && exists i, kept | 0 <= i < |kegs| && IsTarget(kegs, i) :: OthersLeft(kegs, i, left.value, kept)
  }

  ghost predicate RemovalTold(state: State, names: set<string>, force: bool, left: State) {
    && (forall n | n in state && n !in names :: n in left && left[n] == state[n])
    && (forall n | n in left :: n in state)
    && (forall n | n in names && n in state :: RackTold(state[n], force, if n in left then Some(left[n]) else None))
  }

  lemma {:induction false} WithoutInOrder(kegs: seq<Keg>, version: string, target: Keg) returns (kept: seq<nat>)
    requires target.version == version
    ensures Rising(kept) && |kept| == |Without(kegs, [target])|
    ensures forall k | k in kept :: k < |kegs|
    ensures forall k: nat | k < |kegs| :: k in kept <==> kegs[k].version != version
    ensures forall j | 0 <= j < |kept| && kept[j] < |kegs| :: Without(kegs, [target])[j] == kegs[kept[j]]
    decreases |kegs|
  {
    hide Targeted;
    kept := [];
    if kegs != [] {
      var n := |kegs| - 1;
      kept := WithoutInOrder(kegs[..n], version, target);
      RemainingVersions(kegs, [target], n);
      assert kegs[..n + 1] == kegs;
      OneTarget(kegs[n], target);
      if kegs[n].version != version {
        assert forall j | 0 <= j < |kept| :: kept[j] in kept;
        kept := kept + [n];
      }
    }
  }

  lemma OneTarget(keg: Keg, target: Keg)
    ensures Targeted(keg, [target]) <==> keg.version == target.version
  {
    assert target in [target];
  }

  lemma RackIsTold(kegs: seq<Keg>, force: bool)
    ensures RackTold(kegs, force, if |Targets(kegs, force)| != |kegs| then Some(Remaining(kegs, force)) else None)
  {
    if !force && kegs != [] {
      TargetsExact(kegs);
      var i :| 0 <= i < |kegs| && Targets(kegs, false) == [kegs[i]] && IsTarget(kegs, i);
      hide Targets, IsTarget;
      var kept := WithoutInOrder(kegs, kegs[i].version, kegs[i]);
      assert OthersLeft(kegs, i, Remaining(kegs, false), kept);
    }
  }

  lemma RemovalIsTold(state: State, names: set<string>, force: bool)
    ensures RemovalTold(state, names, force, AfterRemoval(state, names, force))
  {
    hide Targets, Remaining, RackTold;
    forall n | n in names && n in state
      ensures RackTold(state[n], force, if |Targets(state[n], force)| != |state[n]| then Some(Remaining(state[n], force)) else None)
    {
      RackIsTold(state[n], force);
    }
  }

  // ----- uninstall -----

  datatype Verdict =
    | Proceed
    | NoSuchKeg(name: string)
    | RequiredBy(dependents: set<string>)
    | IsPinned(name: string)

  predicate AnyPinned(kegs: seq<Keg>) {
    exists k | k in kegs :: k.pinned
  }

  /** The installed formulae outside the named ones that depend on a named one. */
  function OutsideDependents(state: State, names: set<string>): set<string> {
    set n, f | n in names && f in DependentsOf(state, n) && f !in names :: f
  }

  lemma OutsideExact(state: State, names: set<string>)
    ensures forall f :: f in OutsideDependents(state, names) <==> f in state && f !in names && exists n | n in names :: Needs(state[f], n)
  {
    hide NamesDependency, Needs, DependentsOf;
    forall n
      ensures forall f :: f in DependentsOf(state, n) <==> f in state && Needs(state[f], n)
    {
      DependentsExact(state, n);
    }
  }

  /** Refuses what is not installed, then what others need unless that is ignored, then what is pinned
      unless forced. */
  method Preflight(state: State, names: set<string>, force: bool, ignoreDependencies: bool) returns (verdict: Verdict)
    requires Scanned(state)
    ensures verdict.Proceed? <==>
              && names <= state.Keys
              && (ignoreDependencies || OutsideDependents(state, names) == {})
              && (force || forall n | n in names :: n in state ==> !AnyPinned(state[n]))
    ensures verdict.Proceed? && !force ==> forall n, k | n in names && n in state && k in state[n] :: !k.pinned
    ensures verdict.IsPinned? ==> verdict.name in state && exists k | k in state[verdict.name] :: k.pinned
    ensures verdict.NoSuchKeg? <==> !(names <= state.Keys)
    ensures verdict.NoSuchKeg? ==> IsLeast(verdict.name, set n | n in names && n !in state)
    ensures verdict.RequiredBy? <==> names <= state.Keys && !ignoreDependencies && OutsideDependents(state, names) != {}
    ensures verdict.RequiredBy? ==> verdict.dependents == OutsideDependents(state, names)
    ensures forall f :: f in OutsideDependents(state, names) <==> f in state && f !in names && exists n | n in names :: Needs(state[f], n)
    ensures verdict.IsPinned? ==>
              && !force && (ignoreDependencies || OutsideDependents(state, names) == {})
              && IsLeast(verdict.name, set n | n in names && n in state && AnyPinned(state[n]))
  {
    hide OutsideDependents, Needs, DependentsOf, NamesDependency;
    OutsideExact(state, names);
    var ordered := Sorted(names);
    for i := 0 to |ordered|
      invariant forall k | 0 <= k < i :: ordered[k] in state
    {
      if ordered[i] !in state {
        FirstIsLeast(names, i, set n | n in names && n !in state);
        return NoSuchKeg(ordered[i]);
      }
    }
    assert names <= state.Keys by {
      forall n | n in names
        ensures n in state
      {
        assert n in ordered;
      }
    }
    if !ignoreDependencies {
      var required, dependents := CollectOutside(state, names, force, ordered);
      if required != [] {
        return RequiredBy(dependents);
      }
    }
    for i := 0 to |ordered|
      invariant force || forall k | 0 <= k < i :: !AnyPinned(state[ordered[k]])
    {
      if !force && AnyPinned(state[ordered[i]]) {
        FirstIsLeast(names, i, set n | n in names && n in state && AnyPinned(state[n]));
        return IsPinned(ordered[i]);
      }
    }
    assert force || forall n | n in names :: !AnyPinned(state[n]) by {
      forall n | n in names && !force
        ensures !AnyPinned(state[n])
      {
        assert n in ordered;
      }
    }
    return Proceed;
  }

  lemma FirstIsLeast(names: set<string>, i: nat, picked: set<string>)
    requires picked <= names && i < |Sorted(names)| && Sorted(names)[i] in picked
    requires forall k | 0 <= k < i :: Sorted(names)[k] !in picked
    ensures IsLeast(Sorted(names)[i], picked)
  {
    forall n | n in picked
      ensures LexLe(Sorted(names)[i], n)
    {
      assert n in Sorted(names);
      var k :| 0 <= k < |Sorted(names)| && Sorted(names)[k] == n;
      LexTotal(n, n);
    }
  }

  /** The kegs whose removal is refused, and who needs them; the first is empty only if the second is. */
  method CollectOutside(state: State, names: set<string>, force: bool, ordered: seq<string>)
    returns (required: seq<Keg>, dependents: set<string>)
    requires Scanned(state) && names <= state.Keys && forall n :: n in ordered <==> n in names
    ensures dependents == OutsideDependents(state, names)
    ensures required == [] <==> dependents == {}
  {
    dependents := {};
    required := [];
    for i := 0 to |ordered|
      invariant forall f :: f in dependents <==> exists k | 0 <= k < i :: f in DependentsOf(state, ordered[k]) && f !in names
      invariant required == [] <==> dependents == {}
    {
      assert ordered[i] in names;
      var outside := set f | f in DependentsOf(state, ordered[i]) && f !in names;
      if outside != {} {
        required := required + Targets(state[ordered[i]], force);
        dependents := dependents + outside;
      }
    }
    forall f
      ensures f in dependents <==> f in OutsideDependents(state, names)
    {
      if f in OutsideDependents(state, names) {
        var n :| n in names && f in DependentsOf(state, n) && f !in names;
        assert n in ordered;
        var k :| 0 <= k < |ordered| && ordered[k] == n;
      }
    }
  }

  function Versions(kegs: seq<Keg>): (versions: seq<string>)
    ensures |versions| == |kegs| && forall i | 0 <= i < |kegs| :: versions[i] == kegs[i].version
  {
    if kegs == [] then [] else [kegs[0].version] + Versions(kegs[1..])
  }

  lemma {:induction false} RemainingVersions(kegs: seq<Keg>, targets: seq<Keg>, i: nat)
    requires i < |kegs|
    ensures Without(kegs[..i + 1], targets)
         == Without(kegs[..i], targets) + if Targeted(kegs[i], targets) then [] else [kegs[i]]
  {
    if i == 0 {
      assert kegs[..1][1..] == [] && kegs[..0] == [];
    } else {
      RemainingVersions(kegs[1..], targets, i - 1);
      assert kegs[..i + 1][1..] == kegs[1..][..i] && kegs[..i][1..] == kegs[1..][..i - 1];
    }
  }

  lemma {:induction false} VersionsAppend(kegs: seq<Keg>, more: seq<Keg>)
    ensures Versions(kegs + more) == Versions(kegs) + Versions(more)
  {
    if kegs == [] {
      assert kegs + more == more;
    } else {
      assert (kegs + more)[0] == kegs[0] && (kegs + more)[1..] == kegs[1..] + more;
      VersionsAppend(kegs[1..], more);
    }
  }

  /** The versions of `kegs` that no target has, in order. */
  method KeptVersions(kegs: seq<Keg>, targets: seq<Keg>) returns (kept: seq<string>)
    ensures kept == Versions(Without(kegs, targets))
  {
    kept := [];
    for i := 0 to |kegs|
      invariant kept == Versions(Without(kegs[..i], targets))
    {
      RemainingVersions(kegs, targets, i);
      if !Targeted(kegs[i], targets) {
        VersionsAppend(Without(kegs[..i], targets), [kegs[i]]);
        assert Versions([kegs[i]]) == [kegs[i].version] by {
          assert [kegs[i]][1..] == [];
        }
        kept := kept + [kegs[i].version];
      } else {
        assert Without(kegs[..i], targets) + [] == Without(kegs[..i], targets);
      }
    }
    assert kegs[..|kegs|] == kegs;
  }

  /** Plans the removal. What it reports as still installed is what the removal leaves of the named formulae. */
  method RemoveLocked(state: State, names: set<string>, force: bool) returns (remaining: map<string, seq<string>>)
    requires names <= state.Keys
    ensures remaining.Keys == names * AfterRemoval(state, names, force).Keys
    ensures forall n | n in remaining :: remaining[n] == Versions(AfterRemoval(state, names, force)[n])
    ensures RemovalTold(state, names, force, AfterRemoval(state, names, force))
  {
    hide Targets, Without, RemovalTold;
    RemovalIsTold(state, names, force);
    remaining := map[];
    var ordered := Sorted(names);
    for i := 0 to |ordered|
      invariant forall n :: n in remaining <==> n in ordered[..i] && n in AfterRemoval(state, names, force)
      invariant forall n | n in remaining :: remaining[n] == Versions(AfterRemoval(state, names, force)[n])
    {
      var n := ordered[i];
      var targets := Targets(state[n], force);
      if |targets| != |state[n]| {
        var kept := KeptVersions(state[n], targets);
        remaining := remaining[n := kept];
      }
    }
    assert ordered[..|ordered|] == ordered;
  }

  /** After an uninstall that passed preflight with dependencies checked, only formulae named together
      with a removed one can still depend on it, and by force none of those is left. */
  lemma UninstallKeepsDependencies(state: State, names: set<string>, force: bool, r: string)
    requires OutsideDependents(state, names) == {} && r in names
    ensures DependentsOf(AfterRemoval(state, names, force), r) <= names
    ensures force ==> DependentsOf(AfterRemoval(state, names, force), r) == {}
  {
    hide NamesDependency, Remaining, Targets;
    var after := AfterRemoval(state, names, force);
    forall f | f in DependentsOf(after, r)
      ensures f in names
    {
      assert f !in names ==> f in OutsideDependents(state, names);
    }
    ForcedRemoval(state, names);
  }

  lemma {:induction false} WithoutExact(kegs: seq<Keg>, targets: seq<Keg>, keg: Keg)
    ensures keg in Without(kegs, targets) <==> keg in kegs && !Targeted(keg, targets)
  {
    hide Targeted;
    if kegs != [] {
      WithoutExact(kegs[1..], targets, keg);
    }
  }

  /** A keg that the uninstall leaves, in a rack that it does not remove as a whole, names the dependency. */
  predicate StillNames(kegs: seq<Keg>, force: bool, name: string) {
    && |Targets(kegs, force)| != |kegs|
    && exists keg | keg in kegs :: && !Targeted(keg, Targets(kegs, force))
                                   && exists d | d in keg.runtimeDependencies :: DependencyMatches(d, name)
  }

  lemma StillNamesExact(kegs: seq<Keg>, force: bool, name: string)
    ensures StillNames(kegs, force, name) <==>
              |Targets(kegs, force)| != |kegs| && NamesDependency(Remaining(kegs, force), name)
  {
    hide Targets, Targeted, Without, DependencyMatches;
    forall keg
      ensures keg in Remaining(kegs, force) <==> keg in kegs && !Targeted(keg, Targets(kegs, force))
    {
      WithoutExact(kegs, Targets(kegs, force), keg);
    }
  }

  /** Exactly which formulae still depend on `name` after an uninstall: those not named that did, and those
      named that keep a keg which does. */
  lemma DependentsAfterRemoval(state: State, names: set<string>, force: bool, name: string)
    ensures DependentsOf(AfterRemoval(state, names, force), name)
         == set f | f in state && if f in names then StillNames(state[f], force, name) else NamesDependency(state[f], name)
  {
    hide NamesDependency, Targets, Remaining, StillNames;
    forall f | f in state
      ensures StillNames(state[f], force, name) <==>
                |Targets(state[f], force)| != |state[f]| && NamesDependency(Remaining(state[f], force), name)
    {
      StillNamesExact(state[f], force, name);
    }
  }

  /** When nothing names a removed formula any more: exactly when nobody outside needed it and no formula named
      along with it keeps a keg that does. By force the second half always holds. */
  lemma NothingDanglesExactly(state: State, names: set<string>, force: bool, r: string)
    ensures DependentsOf(AfterRemoval(state, names, force), r) == {} <==>
              && DependentsOf(state, r) <= names
              && forall f | f in names && f in state :: !StillNames(state[f], force, r)
    ensures force ==> forall f | f in state :: !StillNames(state[f], force, r)
  {
    hide NamesDependency, StillNames;
    DependentsAfterRemoval(state, names, force, r);
    var still := set f | f in state && if f in names then StillNames(state[f], force, r) else NamesDependency(state[f], r);
    assert forall f | f in DependentsOf(state, r) && f !in names :: f in still;
    assert forall f | f in names && f in state && StillNames(state[f], force, r) :: f in still;
    NoneStillByForce(state, r);
  }

  lemma NoneStillByForce(state: State, r: string)
    ensures forall f | f in state :: !StillNames(state[f], true, r)
  {}

  /** Without force the promise fails: the formula named alongside keeps an older keg that still needs
      the removed one. */
  lemma UnforcedUninstallMayBreak() returns (state: State, names: set<string>)
    ensures Scanned(state) && names <= state.Keys && OutsideDependents(state, names) == {}
    ensures "b" in names && "b" !in AfterRemoval(state, names, false)
    ensures "a" in DependentsOf(AfterRemoval(state, names, false), "b")
  {
    var older, newer := Keg("1", ["b"], true, false, false, false), Keg("2", [], true, true, true, false);
    var b := Keg("1", [], true, true, true, false);
    state, names := map["a" := [older, newer], "b" := [b]], {"a", "b"};
    assert FirstWhere([older, newer], (k: Keg) => k.linked) == [newer] by {
      assert [older, newer][1..] == [newer];
    }
    assert Targets([older, newer], false) == [newer];
    assert Without([newer], [newer]) == [] by {
      assert newer in [newer];
    }
    assert [older, newer][1..] == [newer];
    assert Remaining([older, newer], false) == [older];
    assert older in [older] && "b" in older.runtimeDependencies && DependencyMatches("b", "b");
  }
}
