/** What whole runs of post-install steps come to: which steps apply, what each leaves, and the commands issued. */
module RunOutcomes {
  import opened FileTree
  import opened StepOutcomes
  import P = PlainSteps

  // ----- guards -----

  /** A guard keeps the answer it had before in the run. */
  ghost predicate Answer(t: Tree, known: map<P.Guard, bool>, guard: P.Guard) {
    if guard in known then known[guard]
    else if guard.IfExists? then guard.path in t
    else if guard.UnlessExists? then guard.path !in t
    else guard.platform == guard.host
  }

  ghost predicate Applies(t: Tree, guards: seq<P.Guard>, known: map<P.Guard, bool>) {
    forall g | g in guards :: Answer(t, known, g)
  }

  /** Every guard before it holds. */
  ghost predicate Asked(t: Tree, guards: seq<P.Guard>, known: map<P.Guard, bool>, guard: P.Guard) {
    exists i | 0 <= i < |guards| :: guards[i] == guard && Applies(t, guards[..i], known)
  }

  /** The answers known afterwards: those from before, and those to the guards up to the first that fails. */
  ghost predicate Answered(t: Tree, guards: seq<P.Guard>, known: map<P.Guard, bool>, known': map<P.Guard, bool>) {
    && (forall g :: g in known' <==> g in known || Asked(t, guards, known, g))
    && (forall g | g in known' :: known'[g] <==> Answer(t, known, g))
  }

  lemma {:induction false} GuardsAnswered(t: Tree, guards: seq<P.Guard>, known: map<P.Guard, bool>)
    ensures P.CheckGuards(t, guards, known).0 <==> Applies(t, guards, known)
    ensures Answered(t, guards, known, P.CheckGuards(t, guards, known).1)
    decreases |guards|
  {
    if guards != [] {
      var first, rest := guards[0], guards[1..];
      var more := if first in known then known else known[first := P.GuardHolds(t, first)];
      assert forall g :: Answer(t, more, g) <==> Answer(t, known, g);
      assert forall g | g in guards :: g == first || g in rest;
      if more[first] {
        GuardsAnswered(t, rest, more);
        AskedLater(t, guards, known, more);
      } else {
        AskedFirst(t, guards, known);
        assert first in guards && !Answer(t, known, first);
      }
    }
  }

  lemma AskedFirst(t: Tree, guards: seq<P.Guard>, known: map<P.Guard, bool>)
    requires guards != []
    ensures Asked(t, guards, known, guards[0])
    ensures !Answer(t, known, guards[0]) ==> forall g | Asked(t, guards, known, g) :: g == guards[0]
  {
    assert guards[..0] == [];
    if !Answer(t, known, guards[0]) {
      forall i | 0 < i < |guards|
        ensures !Applies(t, guards[..i], known)
      {
        assert guards[..i][0] == guards[0];
      }
    }
  }

  lemma AskedLater(t: Tree, guards: seq<P.Guard>, known: map<P.Guard, bool>, more: map<P.Guard, bool>)
    requires guards != [] && Answer(t, known, guards[0]) && forall g :: Answer(t, more, g) <==> Answer(t, known, g)
    ensures forall g :: Asked(t, guards, known, g) <==> g == guards[0] || Asked(t, guards[1..], more, g)
  {
    hide Answer;
    AskedFirst(t, guards, known);
    forall i | 0 <= i < |guards| - 1
      ensures Applies(t, guards[1..][..i], more) <==> Applies(t, guards[..i + 1], known)
    {
      assert guards[..i + 1] == [guards[0]] + guards[1..][..i];
      assert forall g :: g in guards[..i + 1] <==> g == guards[0] || g in guards[1..][..i];
    }
    forall g
      ensures Asked(t, guards, known, g) <==> g == guards[0] || Asked(t, guards[1..], more, g)
    {
      if Asked(t, guards, known, g) && g != guards[0] {
        var i :| 0 <= i < |guards| && guards[i] == g && Applies(t, guards[..i], known);
        assert guards[1..][i - 1] == g;
      }
      if Asked(t, guards[1..], more, g) {
        var i :| 0 <= i < |guards| - 1 && guards[1..][i] == g && Applies(t, guards[1..][..i], more);
        assert guards[i + 1] == g;
      }
    }
  }

  // ----- whole runs -----

  /** A step that applies has come to its outcome; any other has left the tree alone. */
  ghost predicate StepTold(t: Tree, step: P.Step, known: map<P.Guard, bool>, t': Tree, known': map<P.Guard, bool>) {
    && Answered(t, step.guards, known, known')
    && if Applies(t, step.guards, known) then
         Outcome(step.kind, t, t') && (Settles(step.kind, t) ==> Possible(step.kind, t))
       else t' == t
  }

  /** The trees and the answers known before each step and after the last. */
  ghost predicate Chronicle(steps: seq<P.Step>, trees: seq<Tree>, knowns: seq<map<P.Guard, bool>>) {
    && |trees| == |knowns| == |steps| + 1 && knowns[0] == map[]
    && forall i | 0 <= i < |steps| :: StepTold(trees[i], steps[i], knowns[i], trees[i + 1], knowns[i + 1])
  }

  /** The commands of the steps that apply, in order: those for the end of the run, or the others. */
  ghost function Issued(steps: seq<P.Step>, trees: seq<Tree>, knowns: seq<map<P.Guard, bool>>, later: bool): seq<string>
    requires |steps| <= |trees| && |steps| <= |knowns|
  {
    if steps == [] then []
    else
      var n := |steps| - 1;
      Issued(steps[..n], trees, knowns, later) +
      if !Applies(trees[n], steps[n].guards, knowns[n]) then []
      else if steps[n].kind.Run? && !later then [steps[n].kind.command]
      else if steps[n].kind.Maintenance? && later then [steps[n].kind.command]
      else []
  }

  /** The run went through all of its steps. */
  ghost predicate Ran(steps: seq<P.Step>, t: Tree, t': Tree, now: seq<string>, later: seq<string>) {
    exists trees, knowns :: Chronicle(steps, trees, knowns) && RanAlong(steps, trees, knowns, t, t', now, later)
  }

  ghost predicate RanAlong(steps: seq<P.Step>, trees: seq<Tree>, knowns: seq<map<P.Guard, bool>>, t: Tree, t': Tree,
                           now: seq<string>, later: seq<string>)
  {
    && |trees| == |knowns| == |steps| + 1 && trees[0] == t && trees[|steps|] == t'
    && now == Issued(steps, trees, knowns, false) && later == Issued(steps, trees, knowns, true)
  }

  /** The run came to a step that applies and cannot be done. */
  ghost predicate Stuck(steps: seq<P.Step>, t: Tree) {
    exists k: nat, t', now, later, known | k < |steps| ::
      Reached(steps[..k], t, t', now, later, known) && CannotBeDone(steps[k], t', known)
  }

  /** The run got through these steps, to this tree, these commands and these answers. */
  ghost predicate Reached(steps: seq<P.Step>, t: Tree, t': Tree, now: seq<string>, later: seq<string>, known: map<P.Guard, bool>) {
    exists trees, knowns :: Chronicle(steps, trees, knowns) && RanAlong(steps, trees, knowns, t, t', now, later) &&
                            knowns[|steps|] == known
  }

  ghost predicate CannotBeDone(step: P.Step, t: Tree, known: map<P.Guard, bool>) {
    Applies(t, step.guards, known) && (Settles(step.kind, t) ==> !Possible(step.kind, t))
  }

  lemma NothingReached(t: Tree)
    ensures Reached([], t, t, [], [], map[])
  {
    assert Chronicle([], [t], [map[]]) && RanAlong([], [t], [map[]], t, t, [], []);
  }

  lemma ReachedNext(steps: seq<P.Step>, k: nat, t: Tree, u: Tree, t': Tree, now: seq<string>, later: seq<string>,
                    known: map<P.Guard, bool>, known': map<P.Guard, bool>)
    requires k < |steps| && Reached(steps[..k], t, u, now, later, known) && StepTold(u, steps[k], known, t', known')
    ensures var applies, kind := Applies(u, steps[k].guards, known), steps[k].kind;
            Reached(steps[..k + 1], t, t', now + (if applies && kind.Run? then [kind.command] else []),
                    later + (if applies && kind.Maintenance? then [kind.command] else []), known')
  {
    hide StepTold, Applies;
    var trees, knowns :| Chronicle(steps[..k], trees, knowns) && RanAlong(steps[..k], trees, knowns, t, u, now, later) &&
                         knowns[k] == known;
    var trees', knowns' := trees + [t'], knowns + [known'];
    assert steps[..k + 1][..k] == steps[..k];
    IssuedMore(steps[..k], trees, knowns, [t'], [known'], false);
    IssuedMore(steps[..k], trees, knowns, [t'], [known'], true);
    forall i | 0 <= i < k + 1
      ensures StepTold(trees'[i], steps[..k + 1][i], knowns'[i], trees'[i + 1], knowns'[i + 1])
    {
      if i < k {
        assert StepTold(trees[i], steps[..k][i], knowns[i], trees[i + 1], knowns[i + 1]);
      }
    }
    assert Chronicle(steps[..k + 1], trees', knowns');
  }

  lemma {:induction false} IssuedMore(steps: seq<P.Step>, trees: seq<Tree>, knowns: seq<map<P.Guard, bool>>,
                                      moreTrees: seq<Tree>, moreKnowns: seq<map<P.Guard, bool>>, later: bool)
    requires |steps| <= |trees| && |steps| <= |knowns|
    ensures Issued(steps, trees + moreTrees, knowns + moreKnowns, later) == Issued(steps, trees, knowns, later)
    decreases |steps|
  {
    if steps != [] {
      IssuedMore(steps[..|steps| - 1], trees, knowns, moreTrees, moreKnowns, later);
    }
  }

  lemma AllReached(steps: seq<P.Step>, t: Tree, t': Tree, now: seq<string>, later: seq<string>, known: map<P.Guard, bool>)
    requires Reached(steps, t, t', now, later, known)
    ensures Ran(steps, t, t', now, later)
  {}
}
