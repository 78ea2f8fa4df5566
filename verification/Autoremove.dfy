/** Which installed formulae nobody needs any more. */
module Autoremove {
  import opened Text
  import opened Installed

  /** Whether a formula was asked for by any of its receipts. */
  function RequestState(state: State): map<string, bool> {
    map n | n in state :: exists k | k in state[n] :: k.onRequest
  }

  predicate Requested(requested: map<string, bool>, n: string) {
    if n in requested then requested[n] else true
  }

  /** Not asked for, and everything that depends on it is in `s`. */
  predicate Unneeded(state: State, requested: map<string, bool>, s: set<string>, n: string) {
    n in state && !Requested(requested, n) && DependentsOf(state, n) <= s
  }

  ghost predicate ClosedSet(state: State, requested: map<string, bool>, s: set<string>) {
    forall n | Unneeded(state, requested, s, n) :: n in s
  }

  /** The least closed set. */
  ghost predicate IsLeast(state: State, requested: map<string, bool>, r: set<string>) {
    && (forall n :: n in r <==> Unneeded(state, requested, r, n))
    && forall s | ClosedSet(state, requested, s) :: r <= s
  }

  /** Rounds of additions until one adds nothing. */
  method Fixpoint(state: State, requested: map<string, bool>) returns (removable: set<string>)
    ensures IsLeast(state, requested, removable)
    ensures forall n | n in removable :: n in state && n in requested && !requested[n]
  {
    removable := {};
    while true
      invariant removable <= state.Keys
      invariant forall n | n in removable :: Unneeded(state, requested, removable, n)
      invariant forall s | ClosedSet(state, requested, s) :: removable <= s
      decreases state.Keys - removable
    {
      var additions := set n | n in state && n !in removable && Unneeded(state, requested, removable, n);
      if additions == {} {
        forall n | Unneeded(state, requested, removable, n)
          ensures n in removable
        {
          assert n !in removable ==> n in additions;
        }
        return;
      }
      forall s | ClosedSet(state, requested, s)
        ensures removable + additions <= s
      {
        forall n | n in additions
          ensures n in s
        {
          assert Unneeded(state, requested, s, n);
        }
      }
      var some :| some in additions;
      assert some in state.Keys - removable;
      removable := removable + additions;
    }
  }

  // ----- when a formula stays -----

  /** Each formula is followed by one that depends on it. */
  ghost predicate IsChain(state: State, p: seq<string>) {
    p != [] && forall i: nat | i + 1 < |p| :: p[i + 1] in DependentsOf(state, p[i])
  }

  /** A chain of dependents from `n` that ends at a requested formula or comes back to one of its own. */
  ghost predicate Held(state: State, requested: map<string, bool>, p: seq<string>, n: string) {
    && IsChain(state, p) && p[0] == n
    && (Requested(requested, p[|p| - 1]) || p[|p| - 1] in p[..|p| - 1])
  }

  ghost predicate Blocked(state: State, requested: map<string, bool>, n: string) {
    exists p :: Held(state, requested, p, n)
  }

  lemma ChainLonger(state: State, p: seq<string>, d: string)
    requires IsChain(state, p) && d in DependentsOf(state, p[|p| - 1])
    ensures IsChain(state, p + [d])
  {}

  /** Following dependents that stay must end: at a requested formula or on the chain itself. */
  lemma {:induction false} StayingIsHeld(state: State, requested: map<string, bool>, r: set<string>, p: seq<string>) returns (q: seq<string>)
    requires IsLeast(state, requested, r) && IsChain(state, p)
    requires forall i | 0 <= i < |p| :: p[i] in state && p[i] !in r
    ensures Held(state, requested, q, p[0])
    decreases |state.Keys - (set x | x in p)|
  {
    hide NamesDependency, IsChain, DependentsOf, IsLeast, Held, Requested;
    ChainNonEmpty(state, p);
    var last := p[|p| - 1];
    if Requested(requested, last) {
      HeldAtRequested(state, requested, p);
      return p;
    }
    var d := StayingDependent(state, requested, r, last);
    ChainLonger(state, p, d);
    if d in p {
      q := p + [d];
      HeldOnItself(state, requested, p, d);
    } else {
      var seen, seen' := set x | x in p, set x | x in p + [d];
      assert seen' == seen + {d} && d in state.Keys - seen;
      assert state.Keys - seen' == (state.Keys - seen) - {d};
      q := StayingIsHeld(state, requested, r, p + [d]);
    }
  }

  /** A formula that stays unrequested has a dependent that stays. */
  lemma StayingDependent(state: State, requested: map<string, bool>, r: set<string>, n: string) returns (d: string)
    requires IsLeast(state, requested, r) && n in state && n !in r && !Requested(requested, n)
    ensures d in DependentsOf(state, n) && d in state && d !in r
  {
    hide NamesDependency;
    assert !Unneeded(state, requested, r, n);
    d :| d in DependentsOf(state, n) && d !in r;
  }

  lemma HeldAtRequested(state: State, requested: map<string, bool>, p: seq<string>)
    requires IsChain(state, p) && Requested(requested, p[|p| - 1])
    ensures Held(state, requested, p, p[0])
  {}

  lemma HeldOnItself(state: State, requested: map<string, bool>, p: seq<string>, d: string)
    requires IsChain(state, p) && IsChain(state, p + [d]) && d in p
    ensures Held(state, requested, p + [d], p[0])
  {}

  lemma ChainNonEmpty(state: State, p: seq<string>)
    requires IsChain(state, p)
    ensures p != []
  {}

  lemma FirstOrRest(s: seq<string>, x: string)
    requires x in s
    ensures x == s[0] || x in s[1..]
  {}

  /** The rest of a chain that ends held is held, unless the chain only came back to its first formula;
      then going round once more shows it. */
  lemma NextIsBlocked(state: State, requested: map<string, bool>, p: seq<string>)
    requires |p| > 1 && Held(state, requested, p, p[0])
    ensures p[1] in DependentsOf(state, p[0]) && Blocked(state, requested, p[1])
  {
    hide NamesDependency;
    var d, tail, last := p[1], p[1..], p[|p| - 1];
    assert d in DependentsOf(state, p[0]);
    forall i: nat | i + 1 < |tail|
      ensures tail[i + 1] in DependentsOf(state, tail[i])
    {
      assert p[i + 1 + 1] in DependentsOf(state, p[i + 1]);
    }
    if Requested(requested, last) || last in tail[..|tail| - 1] {
      assert Held(state, requested, tail, d);
    } else {
      FirstOrRest(p[..|p| - 1], last);
      assert p[..|p| - 1][1..] == tail[..|tail| - 1];
      ChainLonger(state, tail, d);
      var round := tail + [d];
      assert round[..|round| - 1] == tail;
      assert Held(state, requested, round, d);
    }
  }

  /** A formula nobody holds: if all its dependents are free and it is not requested, it is free. */
  lemma FreeIsClosed(state: State, requested: map<string, bool>, n: string)
    requires n in state && !Requested(requested, n)
    requires forall d | d in DependentsOf(state, n) :: !Blocked(state, requested, d)
    ensures !Blocked(state, requested, n)
  {
    hide NamesDependency, IsChain;
    if p :| Held(state, requested, p, n) {
      ChainNonEmpty(state, p);
      if |p| > 1 {
        NextIsBlocked(state, requested, p);
      }
    }
  }

  /** A formula stays exactly when a requested formula or a cycle reaches it through dependents. */
  lemma StaysExactly(state: State, requested: map<string, bool>, r: set<string>, n: string)
    requires IsLeast(state, requested, r) && n in state
    ensures n !in r <==> Blocked(state, requested, n)
  {
    hide NamesDependency, Blocked, Held, IsChain;
    if n !in r {
      SingleChain(state, n);
      var q := StayingIsHeld(state, requested, r, [n]);
      HeldIsBlocked(state, requested, q, n);
    } else {
      var free := set x | x in state && !Blocked(state, requested, x);
      assert ClosedSet(state, requested, free) by {
        forall x | Unneeded(state, requested, free, x)
          ensures x in free
        {
          FreeIsClosed(state, requested, x);
        }
      }
    }
  }

  lemma SingleChain(state: State, n: string)
    ensures IsChain(state, [n])
  {}

  lemma HeldIsBlocked(state: State, requested: map<string, bool>, q: seq<string>, n: string)
    requires Held(state, requested, q, n)
    ensures Blocked(state, requested, n)
  {}

  // ----- the same told from the receipts -----

  ghost predicate AskedFor(state: State, n: string) {
    n in state && exists k | k in state[n] :: k.onRequest
  }

  /** From `n` each formula is needed by the next, up to one that was asked for or one met before. */
  ghost predicate NeededAlong(state: State, p: seq<string>, n: string) {
    && p != [] && p[0] == n
    && (forall i | 1 <= i < |p| :: p[i] in state && Needs(state[p[i]], p[i - 1]))
    && (AskedFor(state, p[|p| - 1]) || p[|p| - 1] in p[..|p| - 1])
  }

  ghost predicate Needed(state: State, n: string) {
    exists p :: NeededAlong(state, p, n)
  }

  /** Autoremoving takes exactly the installed formulae that nobody needs. */
  ghost predicate TakesUnneeded(state: State, removable: set<string>) {
    forall n :: n in removable <==> n in state && !Needed(state, n)
  }

  lemma RequestedExact(state: State, n: string)
    requires n in state
    ensures Requested(RequestState(state), n) <==> AskedFor(state, n)
  {}

  lemma ChainTold(state: State, p: seq<string>, n: string)
    requires n in state
    ensures Held(state, RequestState(state), p, n) <==> NeededAlong(state, p, n)
  {
    hide NamesDependency, Needs, DependentsOf, RequestState, Requested, AskedFor;
    forall x
      ensures forall f :: f in DependentsOf(state, x) <==> f in state && Needs(state[f], x)
    {
      DependentsExact(state, x);
    }
    if p != [] && p[0] == n {
      if IsChain(state, p) {
        forall i | 1 <= i < |p|
          ensures p[i] in state && Needs(state[p[i]], p[i - 1])
        {
          assert p[i - 1 + 1] in DependentsOf(state, p[i - 1]);
        }
      }
      if forall i | 1 <= i < |p| :: p[i] in state && Needs(state[p[i]], p[i - 1]) {
        RequestedExact(state, p[|p| - 1]);
      }
    }
  }

  lemma LeastIsTold(state: State, removable: set<string>)
    requires IsLeast(state, RequestState(state), removable)
    ensures TakesUnneeded(state, removable)
    ensures forall n, k | n in removable && n in state && k in state[n] :: !k.onRequest
  {
    hide IsLeast, Held, NeededAlong, RequestState, Unneeded;
    forall n | n in state
      ensures n in removable <==> !Needed(state, n)
      ensures n in removable ==> !AskedFor(state, n)
    {
      StaysExactly(state, RequestState(state), removable, n);
      forall p
        ensures Held(state, RequestState(state), p, n) <==> NeededAlong(state, p, n)
      {
        ChainTold(state, p, n);
      }
      AskedIsNeeded(state, n);
    }
    LeastIsInstalled(state, removable);
  }

  lemma AskedIsNeeded(state: State, n: string)
    ensures AskedFor(state, n) ==> Needed(state, n)
  {
    if AskedFor(state, n) {
      assert NeededAlong(state, [n], n);
    }
  }

  lemma LeastIsInstalled(state: State, removable: set<string>)
    requires IsLeast(state, RequestState(state), removable)
    ensures forall n | n in removable :: n in state
  {}

  // ----- after the removal -----

  /** No remaining formula names a removed one. */
  lemma NothingDangles(state: State, requested: map<string, bool>, r: set<string>, x: string)
    requires IsLeast(state, requested, r) && x in r
    ensures DependentsOf(AfterRemoval(state, r, true), x) == {}
  {}

  /** A second run finds nothing to remove. */
  lemma SecondRunFindsNothing(state: State, r: set<string>, r': set<string>)
    requires IsLeast(state, RequestState(state), r)
    requires var after := AfterRemoval(state, r, true); IsLeast(after, RequestState(after), r')
    ensures r' == {}
  {
    hide NamesDependency;
    var after := AfterRemoval(state, r, true);
    ForcedRemoval(state, r);
    assert ClosedSet(after, RequestState(after), {}) by {
      forall n | n in after
        ensures !Unneeded(after, RequestState(after), {}, n)
      {
        assert RequestState(after)[n] == RequestState(state)[n];
        assert !Unneeded(state, RequestState(state), r, n);
        if !Requested(RequestState(state), n) {
          var d :| d in DependentsOf(state, n) && d !in r;
          assert d in DependentsOf(after, n);
        }
      }
    }
  }

  /** One autoremove run on the scanned state: the names removed and the state left. */
  method Run(state: State, dryRun: bool) returns (removable: set<string>, after: State)
    ensures IsLeast(state, RequestState(state), removable)
    ensures after == if dryRun then state else state - removable
    ensures !dryRun ==> forall x | x in removable :: DependentsOf(after, x) == {}
    ensures TakesUnneeded(state, removable)
    ensures forall n, k | n in removable && n in state && k in state[n] :: !k.onRequest
  {
    hide NamesDependency, IsLeast, TakesUnneeded;
    removable := Fixpoint(state, RequestState(state));
    LeastIsTold(state, removable);
    if removable == {} || dryRun {
      after := state;
      assert removable == {} ==> state - removable == state;
      return;
    }
    after := AfterRemoval(state, removable, true);
    ForcedRemoval(state, removable);
    forall x | x in removable
      ensures DependentsOf(after, x) == {}
    {
      NothingDangles(state, RequestState(state), removable, x);
    }
  }

  lemma FewerDependents(state: State, smaller: State, x: string)
    requires forall n | n in smaller :: n in state && smaller[n] == state[n]
    ensures DependentsOf(smaller, x) <= DependentsOf(state, x)
  {}

  /** Nobody outside needed `x`, and every named formula that keeps a keg which does was autoremoved. */
  predicate Unneeding(state: State, names: set<string>, force: bool, removable: set<string>, x: string) {
    && DependentsOf(state, x) <= names + removable
    && forall f | f in names && f in state && StillNames(state[f], force, x) :: f in removable
  }

  /** Exactly when no formula left by both steps depends on what the first one removed. */
  lemma DanglesAfterBoth(state: State, names: set<string>, force: bool, removable: set<string>, x: string)
    ensures DependentsOf(AfterRemoval(state, names, force) - removable, x) == {} <==>
              Unneeding(state, names, force, removable, x)
  {
    hide NamesDependency, StillNames, AfterRemoval;
    DependentsAfterRemoval(state, names, force, x);
    var left := AfterRemoval(state, names, force);
    var still := DependentsOf(left, x);
    assert DependentsOf(left - removable, x) == still - removable;
    forall f | f in state
      ensures f in still <==> if f in names then StillNames(state[f], force, x) else f in DependentsOf(state, x)
    {}
    assert forall f | f in still :: f in state && (f in removable || f in still - removable);
  }

  /** Uninstalling and then, unless switched off, autoremoving. A removed formula is named by nothing that is left
      exactly if autoremoving took it or every formula that would still name it; by force with dependencies
      checked that always holds. */
  method Uninstall(state: State, names: set<string>, force: bool, ignoreDependencies: bool, noAutoremove: bool)
    returns (verdict: Verdict, removable: set<string>, after: State)
    requires Scanned(state)
    ensures verdict.Proceed? <==>
              && names <= state.Keys
              && (ignoreDependencies || OutsideDependents(state, names) == {})
              && (force || forall n | n in names :: n in state ==> !AnyPinned(state[n]))
    ensures verdict.NoSuchKeg? <==> !(names <= state.Keys)
    ensures !verdict.Proceed? ==> after == state && removable == {}
    ensures verdict.Proceed? ==>
              var left := AfterRemoval(state, names, force);
              && after == left - removable
              && if noAutoremove then removable == {} else IsLeast(left, RequestState(left), removable)
    ensures verdict.Proceed? ==>
              var left := AfterRemoval(state, names, force);
              && RemovalTold(state, names, force, left)
              && (!noAutoremove ==> TakesUnneeded(left, removable))
              && forall n, k | n in removable && n in left && k in left[n] :: !k.onRequest
    ensures verdict.Proceed? ==>
              forall x | x in state && x !in after ::
                DependentsOf(after, x) == {} <==> x in removable || Unneeding(state, names, force, removable, x)
    ensures verdict.Proceed? && force && !ignoreDependencies ==>
              forall x | x in state && x !in after :: DependentsOf(after, x) == {}
  {
    hide NamesDependency, IsLeast, AfterRemoval, DependentsOf, StillNames, Unneeding, AnyPinned, OutsideDependents;
    hide TakesUnneeded, RemovalTold, Needs;
    RemovalIsTold(state, names, force);
    verdict := Preflight(state, names, force, ignoreDependencies);
    removable := {};
    if !verdict.Proceed? {
      return verdict, removable, state;
    }
    var left := AfterRemoval(state, names, force);
    after := left;
    assert left - removable == left;
    if !noAutoremove {
      removable, after := Run(left, false);
    }
    forall x | x in state && x !in after
      ensures DependentsOf(after, x) == {} <==> x in removable || Unneeding(state, names, force, removable, x)
      ensures force && !ignoreDependencies ==> DependentsOf(after, x) == {}
    {
      DanglesAfterBoth(state, names, force, removable, x);
      if force && !ignoreDependencies && x !in removable {
        ForcedRemoval(state, names);
        UninstallKeepsDependencies(state, names, force, x);
        FewerDependents(left, after, x);
      }
    }
  }
}
