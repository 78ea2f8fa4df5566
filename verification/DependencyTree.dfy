/** The rendered dependency tree, which revisits shared subtrees, and its agreement with expansion. */
module DependencyTrees {
  import opened Text
  import opened Catalogs
  import opened DeclaredEdges
  import opened DependencyGraphs
  import opened DependencyExpansion

  /** One line of the tree. */
  datatype Entry = Entry(prefix: string, last: bool, name: string, circular: bool)

  function Line(e: Entry): string {
    e.prefix + (if e.last then "└── " else "├── ") + e.name + (if e.circular then " (CIRCULAR DEPENDENCY)" else "")
  }

  function Lines(es: seq<Entry>): (lines: seq<string>)
    ensures |lines| == |es|
  {
    seq(|es|, i requires 0 <= i < |es| => Line(es[i]))
  }

  function Continuation(prefix: string, last: bool): string {
    prefix + (if last then "    " else "│   ")
  }

  /** The unfolded tree below a path: a child on the path is marked and not entered again. */
  function Outline(g: Graph, path: seq<string>, children: seq<string>, prefix: string): seq<Entry>
    requires ValidCatalog(g.catalog) && forall v | v in children :: v in Names(g)
    decreases |Off(g, path)|, |children|
  {
    if children == [] then []
    else
      var v, last := children[0], |children| == 1;
      if v in path then [Entry(prefix, last, v, true)] + Outline(g, path, children[1..], prefix)
      else
        [Entry(prefix, last, v, false)] + Below(g, path, v, Continuation(prefix, last)) + Outline(g, path, children[1..], prefix)
  }

  function Below(g: Graph, path: seq<string>, v: string, prefix: string): seq<Entry>
    requires ValidCatalog(g.catalog) && v in Names(g) && v !in path
    decreases |Off(g, path)|, 0
  {
    OffShrinks(g, path, v);
    ChildrenAreNamed(g, v);
    Outline(g, path + [v], Children(g, v), prefix)
  }

  predicate Marked(es: seq<Entry>) {
    exists i | 0 <= i < |es| :: es[i].circular
  }

  lemma MarkedConcat(a: seq<Entry>, b: seq<Entry>)
    ensures Marked(a + b) <==> Marked(a) || Marked(b)
  {
    if Marked(a) {
      var i :| 0 <= i < |a| && a[i].circular;
      assert (a + b)[i].circular;
    }
    if Marked(b) {
      var i :| 0 <= i < |b| && b[i].circular;
      assert (a + b)[|a| + i].circular;
    }
  }

  /** A line of the tree is marked as circular exactly when the reference search finds a cycle. */
  lemma {:induction false} OutlineMarksCycles(g: Graph, path: seq<string>, children: seq<string>, prefix: string)
    requires ValidCatalog(g.catalog) && forall v | v in children :: v in Names(g)
    ensures Marked(Outline(g, path, children, prefix)) <==> HuntAll(g, path, children).Some?
    decreases |Off(g, path)|, |children|
  {
    if children != [] {
      var v, last := children[0], |children| == 1;
      var rest := Outline(g, path, children[1..], prefix);
      var head := [Entry(prefix, last, v, v in path)];
      assert head[0].circular == (v in path);
      OutlineMarksCycles(g, path, children[1..], prefix);
      if v in path {
        MarkedConcat(head, rest);
      } else {
        OffShrinks(g, path, v);
        ChildrenAreNamed(g, v);
        OutlineMarksCycles(g, path + [v], Children(g, v), Continuation(prefix, last));
        MarkedConcat(head + Below(g, path, v, Continuation(prefix, last)), rest);
        MarkedConcat(head, Below(g, path, v, Continuation(prefix, last)));
      }
    }
  }

  /** The children whose edges are selected, or `None` when an edge does not resolve. */
  method CollectChildren(g: Graph, current: string, rootEdge: bool) returns (children: Option<seq<string>>)
    requires rootEdge == (current in g.roots)
    ensures children.Some? ==> children.value == Children(g, current)
    ensures Resolved(g, current) ==> children.Some?
  {
    var formula := Get(g.catalog, current);
    if formula.None? {
      return None;
    }
    var edges := Edges(formula.value, g.host);
    if edges.None? {
      return None;
    }
    var found: seq<string> := [];
    var i: nat := 0;
    while i < |edges.value|
      invariant i <= |edges.value|
      invariant found + ChildrenFrom(g, current, i) == Children(g, current)
    {
      if g.filter.Includes(edges.value[i].tags, rootEdge) {
        assert Included(g, current, i);
        var child := Get(g.catalog, edges.value[i].name);
        if child.None? {
          assert !Kept(g, current, i);
          return None;
        }
        assert Kept(g, current, i) && Target(g, current, i) == child.value.name;
        found := found + [child.value.name];
      } else {
        assert !Kept(g, current, i);
      }
      i := i + 1;
    }
    assert found + [] == found;
    children := Some(found);
  }

  function First(recorded: Option<seq<string>>, found: Option<seq<string>>): Option<seq<string>> {
    if recorded.Some? then recorded else found
  }

  class TreeRenderer {
    const g: Graph
    var active: seq<string>
    var lines: seq<string>
    var cycle: Option<seq<string>>

    constructor (g: Graph, root: string)
      ensures this.g == g && active == [] && lines == [root] && cycle == None
    {
      this.g, active, lines, cycle := g, [], [root], None;
    }

    method Visit(current: string, prefix: string, rootEdge: bool) returns (ok: bool)
      requires ValidCatalog(g.catalog) && current in Names(g) && current !in active
      requires rootEdge == (current in g.roots) && forall r | r in g.roots :: r in active + [current]
      modifies this
      ensures ok ==> active == old(active)
      ensures ok ==> lines == old(lines) + Lines(Below(g, old(active), current, prefix))
      ensures ok ==> cycle == First(old(cycle), Hunt(g, old(active), current))
      ensures Closed(g) ==> ok
      decreases |Off(g, active)|, 0
    {
      hide Closed, Off, Outline, HuntAll, Line;
      OffShrinks(g, active, current);
      ChildrenAreNamed(g, current);
      if Closed(g) {
        ClosedIsResolved(g, current);
      }
      active := active + [current];
      var children := CollectChildren(g, current, rootEdge);
      if children.None? {
        return false;
      }
      ok := VisitChildren(children.value, prefix);
      if ok {
        active := active[..|active| - 1];
        assert active == old(active);
      }
    }

    /** The children one after the other, the last of them marked as such. */
    method VisitChildren(children: seq<string>, prefix: string) returns (ok: bool)
      requires ValidCatalog(g.catalog) && forall v | v in children :: v in Names(g)
      requires active != [] && forall r | r in g.roots :: r in active
      modifies this
      ensures ok ==> active == old(active)
      ensures ok ==> lines == old(lines) + Lines(Outline(g, active, children, prefix))
      ensures ok ==> cycle == First(old(cycle), HuntAll(g, active, children))
      ensures Closed(g) ==> ok
      decreases |Off(g, active)|, 2
    {
      hide Closed, Off, Line, Hunt, Below, Lines, Outline, HuntAll;
      for i := 0 to |children|
        invariant active == old(active)
        invariant lines + Lines(Outline(g, active, children[i..], prefix)) == old(lines) + Lines(Outline(g, active, children, prefix))
        invariant First(cycle, HuntAll(g, active, children[i..])) == First(old(cycle), HuntAll(g, active, children))
      {
        var child, finalChild := children[i], i == |children| - 1;
        ghost var rest := children[i..];
        assert rest[0] == child && rest[1..] == children[i + 1..] && (finalChild <==> |rest| == 1);
        NextChild(g, active, rest, prefix);
        ghost var before := lines;
        ok := VisitChild(child, finalChild, prefix);
        if !ok {
          return;
        }
        assert before + (Lines(OutlineOne(g, active, child, finalChild, prefix)) + Lines(Outline(g, active, rest[1..], prefix)))
            == lines + Lines(Outline(g, active, rest[1..], prefix));
      }
      NoChildren(g, active, children, prefix);
      ok := true;
    }

    /** One line for the child, and what is below it unless it is on the path already. */
    method VisitChild(child: string, finalChild: bool, prefix: string) returns (ok: bool)
      requires ValidCatalog(g.catalog) && child in Names(g)
      requires active != [] && forall r | r in g.roots :: r in active
      modifies this
      ensures ok ==> active == old(active)
      ensures ok ==> lines == old(lines) + Lines(OutlineOne(g, active, child, finalChild, prefix))
      ensures ok ==> cycle == First(old(cycle), HuntAt(g, active, child))
      ensures Closed(g) ==> ok
      decreases |Off(g, active)|, 1
    {
      hide Closed, Off, Line, Hunt, Below, Lines;
      if child in active {
        lines := lines + [Line(Entry(prefix, finalChild, child, true))];
        LinesConcat([Entry(prefix, finalChild, child, true)], []);
        if cycle.None? {
          cycle := Some(CycleAt(active, child));
        }
        return true;
      }
      lines := lines + [Line(Entry(prefix, finalChild, child, false))];
      LinesConcat([Entry(prefix, finalChild, child, false)], Below(g, active, child, Continuation(prefix, finalChild)));
      ok := Visit(child, Continuation(prefix, finalChild), false);
    }
  }

  /** What one child contributes to the outline. */
  function OutlineOne(g: Graph, path: seq<string>, v: string, last: bool, prefix: string): seq<Entry>
    requires ValidCatalog(g.catalog) && v in Names(g)
  {
    if v in path then [Entry(prefix, last, v, true)]
    else [Entry(prefix, last, v, false)] + Below(g, path, v, Continuation(prefix, last))
  }

  lemma NextChild(g: Graph, path: seq<string>, children: seq<string>, prefix: string)
    requires ValidCatalog(g.catalog) && children != [] && forall v | v in children :: v in Names(g)
    ensures Lines(Outline(g, path, children, prefix))
         == Lines(OutlineOne(g, path, children[0], |children| == 1, prefix)) + Lines(Outline(g, path, children[1..], prefix))
    ensures HuntAll(g, path, children) == First(HuntAt(g, path, children[0]), HuntAll(g, path, children[1..]))
  {
    hide Below, Hunt, Lines, Line;
    LinesConcat(OutlineOne(g, path, children[0], |children| == 1, prefix), Outline(g, path, children[1..], prefix));
  }

  lemma NoChildren(g: Graph, path: seq<string>, children: seq<string>, prefix: string)
    requires ValidCatalog(g.catalog) && forall v | v in children :: v in Names(g)
    ensures Lines(Outline(g, path, children[|children|..], prefix)) == [] && HuntAll(g, path, children[|children|..]) == None
  {}

  lemma LinesConcat(a: seq<Entry>, b: seq<Entry>)
    ensures Lines(a + b) == Lines(a) + Lines(b)
    ensures |a| == 1 ==> Lines(a) == [Line(a[0])]
  {}

  lemma ClosedIsResolved(g: Graph, u: string)
    requires Closed(g) && u in Names(g)
    ensures Resolved(g, u)
  {}

  // ----- the drawing read back -----

  /** The query follows the edge, and it leads to a formula. */
  ghost predicate FollowedAt(g: Graph, u: string, k: nat) {
    && k < |EdgeList(g, u)| && Admits(g.filter, EdgeList(g, u)[k].tags, u in g.roots)
    && Get(g.catalog, EdgeList(g, u)[k].name).Some?
  }

  ghost predicate LeadsTo(g: Graph, u: string, k: nat, v: string) {
    k < |EdgeList(g, u)| && Get(g.catalog, EdgeList(g, u)[k].name).Some? && Get(g.catalog, EdgeList(g, u)[k].name).value.name == v
  }

  /** The children are what the followed edges lead to, in the order of the edges. */
  ghost predicate ChildrenAt(g: Graph, u: string, from: nat, children: seq<string>, kept: seq<nat>) {
    && Rising(kept) && |kept| == |children|
    && (forall k: nat :: k in kept <==> from <= k && FollowedAt(g, u, k))
    && (forall j | 0 <= j < |kept| :: LeadsTo(g, u, kept[j], children[j]))
  }

  lemma {:induction false} ChildrenInOrder(g: Graph, u: string, from: nat) returns (kept: seq<nat>)
    requires from <= |EdgeList(g, u)|
    ensures ChildrenAt(g, u, from, ChildrenFrom(g, u, from), kept)
    decreases |EdgeList(g, u)| - from
  {
    if from == |EdgeList(g, u)| {
      kept := [];
    } else {
      hide EdgeList, ChildrenAt, Included;
      var rest := ChildrenInOrder(g, u, from + 1);
      FirstFollowed(g, u, from);
      kept := OneMoreChild(g, u, from, ChildrenFrom(g, u, from + 1), rest);
    }
  }

  lemma FirstFollowed(g: Graph, u: string, from: nat)
    ensures Kept(g, u, from) <==> FollowedAt(g, u, from)
    ensures Kept(g, u, from) ==> LeadsTo(g, u, from, Target(g, u, from))
  {
    if from < |EdgeList(g, u)| {
      IncludesExact(g.filter, EdgeList(g, u)[from].tags, u in g.roots);
    }
  }

  lemma OneMoreChild(g: Graph, u: string, from: nat, children: seq<string>, rest: seq<nat>) returns (kept: seq<nat>)
    requires ChildrenAt(g, u, from + 1, children, rest)
    requires Kept(g, u, from) <==> FollowedAt(g, u, from)
    requires Kept(g, u, from) ==> LeadsTo(g, u, from, Target(g, u, from))
    ensures ChildrenAt(g, u, from, (if Kept(g, u, from) then [Target(g, u, from)] else []) + children, kept)
  {
    hide Kept, FollowedAt, LeadsTo, Target;
    if Kept(g, u, from) {
      kept := [from] + rest;
      assert forall k: nat :: k in kept <==> k in rest || k == from;
      assert forall j | 1 <= j < |kept| :: kept[j] == rest[j - 1] && kept[j] in rest;
    } else {
      kept := rest;
      assert [] + children == children;
    }
  }

  /** The names from the root down to the place: at each level the number of the child. Nothing is below a formula
      that stands on its own path. */
  ghost function Walk(g: Graph, root: string, place: seq<nat>): Option<seq<string>>
    decreases |place|
  {
    if place == [] then Some([root])
    else
      match Walk(g, root, place[..|place| - 1])
      case None => None
      case Some(path) =>
        var n, children := place[|place| - 1], Children(g, path[|path| - 1]);
        if path[|path| - 1] in path[..|path| - 1] || n >= |children| then None else Some(path + [children[n]])
  }

  /** Nobody comes after it below its parent. */
  ghost predicate IsFinal(g: Graph, root: string, place: seq<nat>) {
    place != [] && Walk(g, root, place[..|place| - 1] + [place[|place| - 1] + 1]).None?
  }

  /** A bar for every level above that still goes on, and blanks for one that does not. */
  ghost function Bars(g: Graph, root: string, place: seq<nat>): string
    decreases |place|
  {
    if place == [] then ""
    else Bars(g, root, place[..|place| - 1]) + (if IsFinal(g, root, place) then "    " else "│   ")
  }

  /** The line for a place: the bars of the levels above, a corner or a tee, the name, and a mark if it is on its
      own path. */
  ghost function Drawn(g: Graph, root: string, place: seq<nat>): string
    requires place != [] && Walk(g, root, place).Some?
  {
    var path := Walk(g, root, place).value;
    var name := path[|path| - 1];
    Bars(g, root, place[..|place| - 1]) + (if IsFinal(g, root, place) then "└── " else "├── ") + name +
    (if name in path[..|path| - 1] then " (CIRCULAR DEPENDENCY)" else "")
  }

  /** Parents come before what is below them, and that before the next sibling. */
  ghost predicate ComesBefore(a: seq<nat>, b: seq<nat>) {
    a < b || exists k: nat :: k < |a| && k < |b| && a[..k] == b[..k] && a[k] < b[k]
  }

  ghost predicate InDrawingOrder(places: seq<seq<nat>>) {
    forall i, j | 0 <= i < j < |places| :: ComesBefore(places[i], places[j])
  }

  /** The lines are the drawings of these places. */
  ghost predicate DrawnAt(g: Graph, root: string, lines: seq<string>, places: seq<seq<nat>>) {
    && |lines| == |places|
    && forall i | 0 <= i < |lines| ::
         places[i] != [] && Walk(g, root, places[i]).Some? && lines[i] == Drawn(g, root, places[i])
  }

  /** The root, and then every place below it once, in order. */
  ghost predicate DrawsTree(g: Graph, root: string, lines: seq<string>) {
    && lines != [] && lines[0] == root
    && exists places :: DrawnAt(g, root, lines[1..], places) && InDrawingOrder(places) &&
                        forall p :: p in places <==> p != [] && Walk(g, root, p).Some?
  }

  /** Above a place there are places, none of them on its own path. */
  lemma {:induction false} WalkAbove(g: Graph, root: string, place: seq<nat>, k: nat)
    requires k < |place| && Walk(g, root, place).Some?
    ensures Walk(g, root, place[..k]).Some?
    ensures var path := Walk(g, root, place[..k]).value;
            path != [] && path[|path| - 1] !in path[..|path| - 1] && place[k] < |Children(g, path[|path| - 1])|
    decreases |place|
  {
    var front := place[..|place| - 1];
    WalkNotEmpty(g, root, front);
    if k < |front| {
      WalkAbove(g, root, front, k);
      assert front[..k] == place[..k];
    } else {
      assert place[..k] == front;
    }
  }

  lemma {:induction false} WalkNotEmpty(g: Graph, root: string, place: seq<nat>)
    ensures Walk(g, root, place).Some? ==> |Walk(g, root, place).value| == |place| + 1
    decreases |place|
  {
    if place != [] {
      WalkNotEmpty(g, root, place[..|place| - 1]);
    }
  }

  /** The place is at or below child `j` of `b`, or at or below a later one. */
  ghost predicate From(b: seq<nat>, j: nat, p: seq<nat>) {
    b < p && p[|b|] >= j
  }

  ghost predicate PlacesFrom(g: Graph, root: string, b: seq<nat>, j: nat, places: seq<seq<nat>>) {
    InDrawingOrder(places) && forall p :: p in places <==> From(b, j, p) && Walk(g, root, p).Some?
  }

  lemma {:induction false} OutlineDrawn(g: Graph, root: string, b: seq<nat>, path: seq<string>, j: nat) returns (places: seq<seq<nat>>)
    requires ValidCatalog(g.catalog) && Walk(g, root, b) == Some(path) && path != []
    requires path[|path| - 1] !in path[..|path| - 1] && j <= |Children(g, path[|path| - 1])|
    requires forall v | v in Children(g, path[|path| - 1]) :: v in Names(g)
    ensures DrawnAt(g, root, Lines(Outline(g, path, Children(g, path[|path| - 1])[j..], Bars(g, root, b))), places)
    ensures PlacesFrom(g, root, b, j, places)
    decreases |Off(g, path)|, |Children(g, path[|path| - 1])| - j
  {
    hide Bars, DrawnAt, PlacesFrom, Lines, Children, Off;
    var children := Children(g, path[|path| - 1]);
    if j == |children| {
      places := [];
      NothingDrawn(g, root, b, path);
      return;
    }
    var v, last, prefix := children[j], j == |children| - 1, Bars(g, root, b);
    var entry := Entry(prefix, last, v, v in path);
    ChildDrawn(g, root, b, path, j);
    assert children[j..][0] == v && children[j..][1..] == children[j + 1..] && v in children;
    var rest := OutlineDrawn(g, root, b, path, j + 1);
    var after := Outline(g, path, children[j + 1..], prefix);
    if v in path {
      places := [b + [j]] + rest;
      LinesConcat([entry], after);
      DrawnTogether(g, root, Lines([entry]), [b + [j]], Lines(after), rest);
      MarkedPlaces(g, root, b, path, j, rest);
    } else {
      OffShrinks(g, path, v);
      ChildrenAreNamed(g, v);
      var child := path + [v];
      assert child[..|child| - 1] == path && Children(g, v)[0..] == Children(g, v);
      var inside := OutlineDrawn(g, root, b + [j], child, 0);
      var below := Below(g, path, v, Continuation(prefix, last));
      places := [b + [j]] + inside + rest;
      LinesConcat([entry], below);
      LinesConcat([entry] + below, after);
      DrawnTogether(g, root, Lines([entry]), [b + [j]], Lines(below), inside);
      DrawnTogether(g, root, Lines([entry] + below), [b + [j]] + inside, Lines(after), rest);
      PlacesJoined(g, root, b, j, inside, rest);
    }
  }

  lemma NothingDrawn(g: Graph, root: string, b: seq<nat>, path: seq<string>)
    requires ValidCatalog(g.catalog) && Walk(g, root, b) == Some(path) && path != []
    requires forall v | v in Children(g, path[|path| - 1]) :: v in Names(g)
    ensures var children := Children(g, path[|path| - 1]);
            && DrawnAt(g, root, Lines(Outline(g, path, children[|children|..], Bars(g, root, b))), [])
            && PlacesFrom(g, root, b, |children|, [])
  {
    hide Bars, Children;
    forall p | From(b, |Children(g, path[|path| - 1])|, p)
      ensures Walk(g, root, p).None?
    {
      assert p[..|b|] == b;
      if Walk(g, root, p).Some? {
        WalkAbove(g, root, p, |b|);
      }
    }
  }

  lemma WalkChild(g: Graph, root: string, b: seq<nat>, path: seq<string>, j: nat)
    requires Walk(g, root, b) == Some(path) && path != [] && path[|path| - 1] !in path[..|path| - 1]
    ensures Walk(g, root, b + [j]) ==
            if j < |Children(g, path[|path| - 1])| then Some(path + [Children(g, path[|path| - 1])[j]]) else None
  {
    hide Children;
    assert (b + [j])[..|b + [j]| - 1] == b;
  }

  lemma FinalChild(g: Graph, root: string, b: seq<nat>, path: seq<string>, j: nat)
    requires Walk(g, root, b) == Some(path) && path != [] && path[|path| - 1] !in path[..|path| - 1]
    requires j < |Children(g, path[|path| - 1])|
    ensures IsFinal(g, root, b + [j]) <==> j == |Children(g, path[|path| - 1])| - 1
  {
    hide Children, Walk;
    assert (b + [j])[..|b + [j]| - 1] == b;
    WalkChild(g, root, b, path, j + 1);
  }

  /** One line, and what stands before the lines below it. */
  lemma ChildDrawn(g: Graph, root: string, b: seq<nat>, path: seq<string>, j: nat)
    requires Walk(g, root, b) == Some(path) && path != [] && path[|path| - 1] !in path[..|path| - 1]
    requires j < |Children(g, path[|path| - 1])|
    ensures var children := Children(g, path[|path| - 1]);
            var entry := Entry(Bars(g, root, b), j == |children| - 1, children[j], children[j] in path);
            && Walk(g, root, b + [j]) == Some(path + [children[j]])
            && DrawnAt(g, root, Lines([entry]), [b + [j]])
            && Bars(g, root, b + [j]) == Continuation(Bars(g, root, b), j == |children| - 1)
  {
    hide Children, Walk, IsFinal;
    var place := b + [j];
    assert place[..|place| - 1] == b;
    WalkChild(g, root, b, path, j);
    FinalChild(g, root, b, path, j);
    var child := path + [Children(g, path[|path| - 1])[j]];
    assert child[..|child| - 1] == path;
  }

  lemma DrawnTogether(g: Graph, root: string, one: seq<string>, places: seq<seq<nat>>, other: seq<string>, more: seq<seq<nat>>)
    requires DrawnAt(g, root, one, places) && DrawnAt(g, root, other, more)
    ensures DrawnAt(g, root, one + other, places + more)
  {
    hide Drawn, Walk;
  }

  lemma MarkedPlaces(g: Graph, root: string, b: seq<nat>, path: seq<string>, j: nat, rest: seq<seq<nat>>)
    requires Walk(g, root, b) == Some(path) && path != [] && j < |Children(g, path[|path| - 1])|
    requires Walk(g, root, b + [j]) == Some(path + [Children(g, path[|path| - 1])[j]]) && Children(g, path[|path| - 1])[j] in path
    requires PlacesFrom(g, root, b, j + 1, rest)
    ensures PlacesFrom(g, root, b, j, [b + [j]] + rest)
  {
    hide Children, Walk;
    var child := path + [Children(g, path[|path| - 1])[j]];
    assert child[..|child| - 1] == path;
    assert PlacesFrom(g, root, b + [j], 0, []) by {
      forall p | From(b + [j], 0, p)
        ensures Walk(g, root, p).None?
      {
        assert p[..|b| + 1] == b + [j];
        if Walk(g, root, p).Some? {
          WalkAbove(g, root, p, |b| + 1);
        }
      }
    }
    PlacesJoined(g, root, b, j, [], rest);
    assert [b + [j]] + [] + rest == [b + [j]] + rest;
  }

  lemma PlacesJoined(g: Graph, root: string, b: seq<nat>, j: nat, inside: seq<seq<nat>>, rest: seq<seq<nat>>)
    requires Walk(g, root, b + [j]).Some? && PlacesFrom(g, root, b + [j], 0, inside) && PlacesFrom(g, root, b, j + 1, rest)
    ensures PlacesFrom(g, root, b, j, [b + [j]] + inside + rest)
  {
    hide Walk, ComesBefore;
    var here, places := b + [j], [b + [j]] + inside + rest;
    forall p
      ensures p in places <==> From(b, j, p) && Walk(g, root, p).Some?
    {
      FromHere(b, j, p);
      assert p in places <==> p == here || p in inside || p in rest;
    }
    forall i, k | 0 <= i < k < |places|
      ensures ComesBefore(places[i], places[k])
    {
      if i <= |inside| < k {
        assert places[k] in rest && (places[i] == here || places[i] in inside);
        LaterSibling(b, j, places[i], places[k]);
      } else if i == 0 {
        assert places[k] in inside;
        BelowComesLater(here, places[k]);
      } else if k <= |inside| {
        assert places[i] == inside[i - 1] && places[k] == inside[k - 1];
      } else {
        assert places[i] == rest[i - 1 - |inside|] && places[k] == rest[k - 1 - |inside|];
      }
    }
  }

  lemma FromHere(b: seq<nat>, j: nat, p: seq<nat>)
    ensures From(b, j, p) <==> p == b + [j] || From(b + [j], 0, p) || From(b, j + 1, p)
  {
    if b < p && p[|b|] == j {
      assert p[..|b| + 1] == b + [j];
    }
  }

  lemma LaterSibling(b: seq<nat>, j: nat, p: seq<nat>, q: seq<nat>)
    requires (p == b + [j] || From(b + [j], 0, p)) && From(b, j + 1, q)
    ensures ComesBefore(p, q)
  {
    assert p[..|b|] == b == q[..|b|] && p[|b|] == j;
  }

  lemma BelowComesLater(here: seq<nat>, p: seq<nat>)
    requires From(here, 0, p)
    ensures ComesBefore(here, p)
  {}

  /** The lines of a tree draw the unfolded tree. */
  lemma LinesDrawTree(g: Graph, root: string)
    requires ValidCatalog(g.catalog) && root in Names(g)
    ensures DrawsTree(g, root, [root] + Lines(Below(g, [], root, "")))
  {
    hide Drawn, InDrawingOrder, Children;
    ChildrenAreNamed(g, root);
    assert [] + [root] == [root] && Children(g, root)[0..] == Children(g, root);
    var places := OutlineDrawn(g, root, [], [root], 0);
    assert ([root] + Lines(Below(g, [], root, "")))[1..] == Lines(Below(g, [], root, ""));
  }

  datatype DependencyTree = DependencyTree(lines: seq<string>, cycle: Option<seq<string>>)

  /** The search tells a cycle that the root leads to, or there is none. */
  lemma CycleIsTold(g: Graph, root: string)
    requires ValidCatalog(g.catalog) && root in Names(g)
    ensures if Hunt(g, [], root).Some? then GoesRound(g, Hunt(g, [], root).value) && Leads(g, root, Hunt(g, [], root).value[0])
            else forall cycle | GoesRound(g, cycle) :: !Leads(g, root, cycle[0])
  {
    hide Hunt, IsPath, Chain, Reaches, Leads;
    HuntExact(g, root);
    if Hunt(g, [], root).Some? {
      var cycle := Hunt(g, [], root).value;
      HuntFinds(g, root);
      ChainExact(g, cycle);
      LeadsExact(g, root, cycle[0]);
    } else {
      forall cycle | GoesRound(g, cycle)
        ensures !Leads(g, root, cycle[0])
      {
        ChainExact(g, cycle);
        LeadsExact(g, root, cycle[0]);
      }
    }
  }

  /** The tree of one root; `None` when the root or an edge does not resolve or the host is universal. */
  method Tree(c: Catalog, root: string, host: Host, filter: EdgeFilter) returns (tree: Option<DependencyTree>)
    requires ValidCatalog(c)
    ensures tree.Some? ==> !host.AllHosts? && Get(c, root).Some?
    ensures tree.Some? ==>
      var name := Get(c, root).value.name;
      var g := QueryGraph(c, host, filter, [name]);
      && name in Names(g) && tree.value.cycle == Hunt(g, [], name)
      && tree.value.lines == [name] + Lines(Below(g, [], name, ""))
      && DrawsTree(g, name, tree.value.lines)
      && if tree.value.cycle.Some? then GoesRound(g, tree.value.cycle.value) && Leads(g, name, tree.value.cycle.value[0])
         else forall cycle | GoesRound(g, cycle) :: !Leads(g, name, cycle[0])
    ensures !host.AllHosts? && Get(c, root).Some? && Closed(QueryGraph(c, host, filter, [Get(c, root).value.name])) ==> tree.Some?
  {
    hide Closed, Hunt, Below, DrawsTree, GoesRound, Leads;
    if host.AllHosts? {
      return None;
    }
    var formula := Get(c, root);
    if formula.None? {
      return None;
    }
    GetIsCanonical(c, root);
    var name := formula.value.name;
    var renderer := new TreeRenderer(QueryGraph(c, host, filter, [name]), name);
    LinesDrawTree(renderer.g, name);
    CycleIsTold(renderer.g, name);
    var ok := renderer.Visit(name, "", true);
    return if ok then Some(DependencyTree(renderer.lines, renderer.cycle)) else None;
  }

  /** On a closed catalog the tree of a formula and its expansion tell the same story: the tree records a
      cycle exactly when the expansion fails, and then both report the very same one. */
  method TreeAgreesWithExpansion(c: Catalog, root: string, host: Host, mode: Mode, filter: EdgeFilter)
    returns (tree: Option<DependencyTree>, expansion: Expansion)
    requires ValidCatalog(c) && !host.AllHosts? && Get(c, root).Some?
    requires Closed(QueryGraph(c, host, filter, [Get(c, root).value.name]))
    ensures tree.Some?
    ensures (if expansion.Rejected? then Some(expansion.error) else None) == CycleError(tree.value.cycle)
    ensures tree.value.cycle.Some? <==>
      ReachesCycle(QueryGraph(c, host, filter, [Get(c, root).value.name]), Get(c, root).value.name)
  {
    hide Closed, Hunt, Below, IsExpansion, ReachesCycle, IsCycle, Reachable;
    tree := Tree(c, root, host, filter);
    ghost var full;
    expansion, full := Expand(c, [root], host, mode, filter);
    SingleRoot(c, root, host, filter);
    HuntExact(QueryGraph(c, host, filter, [Get(c, root).value.name]), Get(c, root).value.name);
  }

  lemma SingleName(c: Catalog, root: string)
    requires Get(c, root).Some?
    ensures RootNames(c, [root]) == Some([Get(c, root).value.name])
  {
    var requested := [root];
    assert requested[..|requested| - 1] == [];
    assert RootNames(c, requested[..|requested| - 1]) == Some([]);
    var name := Get(c, root).value.name;
    assert [] + [name] == [name];
  }

  lemma SingleRoot(c: Catalog, root: string, host: Host, filter: EdgeFilter)
    requires ValidCatalog(c) && Get(c, root).Some?
    ensures RootNames(c, [root]) == Some([Get(c, root).value.name])
    ensures Get(c, root).value.name in c.byName
    ensures var name := Get(c, root).value.name;
      var g := QueryGraph(c, host, filter, [name]);
      HuntRoots(g, [name]) == Hunt(g, [], name)
  {
    GetIsCanonical(c, root);
    SingleName(c, root);
    var name := Get(c, root).value.name;
    assert [name][..0] == [];
  }
}
