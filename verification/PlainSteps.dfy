/**
  What post-install steps are meant to do to a tree: a plain interpreter that overwrites and deletes,
  with no journal and no faults. `None` stands for a step that is refused or cannot succeed.
 */
module PlainSteps {
  import opened Text
  import opened FileTree
  import opened Globs

  datatype Platform = Linux | MacOs

  /** A condition on running a step. Results are remembered for the rest of the run by how the path is
      spelled, so two spellings of one path are evaluated separately; `path` is what the spelling resolves
      to, and `host` the platform of the run. */
  datatype Guard =
    | IfExists(spelling: string, path: Path)
    | UnlessExists(spelling: string, path: Path)
    | On(platform: Platform, host: Platform)

  /** A step with its paths resolved and its templates expanded. Wildcards are only read in the paths
      of `Remove` and `SetPermissions` and in the sources of steps with `sourceGlob`. */
  datatype StepKind =
    | Mkdir(path: Path, parents: bool)
    | Touch(path: Path)
    | Move(source: Path, target: Path, force: bool, overwrite: bool, sourceGlob: bool)
    | MoveChildren(source: Path, target: Path)
    | Copy(source: Path, target: Path, recursive: bool, overwrite: bool, sourceGlob: bool)
    | Remove(paths: seq<Path>, recursive: bool, symlinkTargetContains: Option<string>, contentContains: Option<string>)
    | Inreplace(path: Path, before: string, after: string, firstOnly: bool)
    | LinkDir(source: Path, target: Path)
    | LinkChildren(source: Path, target: Path, prefix: string, suffix: string)
    | Symlink(text: string, target: Path, force: bool)
    | SymlinkGlob(source: Path, target: Path, force: bool)
    | Write(path: Path, content: string, overwrite: bool)
    | Warn(message: string)
    | SetPermissions(paths: seq<Path>, mode: nat, nonRecursive: bool)
    | Run(command: string)
    | Maintenance(command: string)

  datatype Step = Step(kind: StepKind, guards: seq<Guard>)

  // ----- text -----

  predicate OccursAt(text: string, part: string, i: nat) {
    i + |part| <= |text| && text[i..i + |part|] == part
  }

  predicate Contains(text: string, part: string) {
    exists i: nat | i <= |text| :: OccursAt(text, part, i)
  }

  /** Every replacement made left to right, or only the first. An empty pattern matches between all
      bytes and at both ends. */
  function Replaced(text: string, before: string, after: string, firstOnly: bool): string
    decreases |text|
  {
    if before <= text then
      if firstOnly then after + text[|before|..]
      else if before != [] then after + Replaced(text[|before|..], before, after, false)
      else if text == [] then after
      else after + [text[0]] + Replaced(text[1..], before, after, false)
    else if text == [] then []
    else [text[0]] + Replaced(text[1..], before, after, firstOnly)
  }

  function PathText(p: Path): string {
    if p == [] then "" else PathText(Parent(p)) + "/" + Base(p)
  }

  // ----- building blocks -----

  function Create(t: Tree, p: Path, n: Node): Option<Tree> {
    if CanCreate(t, p) then Some(t[p := n]) else None
  }

  function Rename(t: Tree, s: Path, d: Path): Option<Tree> {
    if CanRename(t, s, d) then Some(Renamed(t, s, d)) else None
  }

  /** The directory at `p` with all its missing ancestors. */
  function MakeParents(t: Tree, p: Path): Option<Tree>
    decreases |p|
  {
    if p in t then
      if t[p].Dir? then Some(t) else None
    else if p == [] then None
    else
      match MakeParents(t, Parent(p))
      case None => None
      case Some(u) => Create(u, p, Dir(NEW_DIR_MODE))
  }

  function MakeParent(t: Tree, p: Path): Option<Tree> {
    if p == [] then None else MakeParents(t, Parent(p))
  }

  /** A file in place of whatever is at `p`. */
  function PutFile(t: Tree, p: Path, content: string): Option<Tree> {
    match MakeParent(Without(t, p), p)
    case None => None
    case Some(u) => Create(u, p, File(content, NEW_FILE_MODE))
  }

  /** A link in place of whatever is at `p`, which must be free unless `force` is set. */
  function PutLink(t: Tree, text: string, p: Path, force: bool): Option<Tree> {
    match MakeParent(t, p)
    case None => None
    case Some(u) => if p in u && !force then None else Create(Without(u, p), p, Link(text))
  }

  /** An existing directory as target means "into it". */
  function DestinationFor(t: Tree, source: Path, target: Path): Path {
    if source != [] && target in t && t[target].Dir? then target + [Base(source)] else target
  }

  /** The single path a source stands for. */
  function SourceOf(t: Tree, source: Path, sourceGlob: bool): Option<Path> {
    if !sourceGlob then Some(source)
    else
      match Expand(t, source)
      case None => None
      case Some(paths) => if |paths| == 1 then Some(paths[0]) else None
  }

  function Depth(p: Path): nat {
    if |p| > MAX_DEPTH then 0 else MAX_DEPTH + 1 - |p|
  }

  // ----- recursive copies, links and modes -----

  function CopyTree(t: Tree, source: Path, destination: Path, recursive: bool): Option<Tree>
    decreases Depth(source), 1, 0
  {
    if source !in t then None
    else
      match t[source]
      case Link(text) => Create(t, destination, Link(text))
      case File(content, mode) => Create(t, destination, File(content, mode))
      case Dir(mode) =>
        if !recursive || !CanCreate(t, destination) then None
        else
          var u := t[destination := Dir(mode)];
          match Listing(u, source)
          case None => None
          case Some(names) => CopyAll(u, source, destination, names)
  }

  function CopyAll(t: Tree, source: Path, destination: Path, names: seq<string>): Option<Tree>
    decreases Depth(source), 0, |names|
  {
    if names == [] then Some(t)
    else if |source| > MAX_DEPTH then None
    else
      match CopyTree(t, source + [names[0]], destination + [names[0]], true)
      case None => None
      case Some(u) => CopyAll(u, source, destination, names[1..])
  }

  function LinkTree(t: Tree, source: Path, target: Path): Option<Tree>
    decreases Depth(source), 1, 0
  {
    match MakeParents(t, target)
    case None => None
    case Some(u) =>
      match Listing(u, source)
      case None => None
      case Some(names) => LinkAll(u, source, target, names)
  }

  function LinkAll(t: Tree, source: Path, target: Path, names: seq<string>): Option<Tree>
    decreases Depth(source), 0, |names|
  {
    if names == [] then Some(t)
    else if |source| > MAX_DEPTH then None
    else
      var child, destination := source + [names[0]], target + [names[0]];
      if names[0] == ".DS_Store" then LinkAll(t, source, target, names[1..])
      else if child !in t then None
      else if t[child].Dir? then
        match LinkDirectory(t, child, destination)
        case None => None
        case Some(u) => LinkAll(u, source, target, names[1..])
      else
        match PutLink(t, PathText(child), destination, true)
        case None => None
        case Some(u) => LinkAll(u, source, target, names[1..])
  }

  /** A directory inside a linked directory: a real directory takes the place of anything else. */
  function LinkDirectory(t: Tree, child: Path, destination: Path): Option<Tree>
    decreases Depth(child), 2, 0
  {
    var u := if destination in t && !t[destination].Dir? then Without(t, destination) else t;
    match MakeParents(u, destination)
    case None => None
    case Some(v) => LinkTree(v, child, destination)
  }

  function ChmodTree(t: Tree, p: Path, mode: nat, nonRecursive: bool): Option<Tree>
    decreases Depth(p), 1, 0
  {
    if p !in t then None
    else if t[p].Link? then Some(t)
    else
      var u := Chmod(t, p, mode);
      if t[p].Dir? && !nonRecursive then
        match Listing(u, p)
        case None => None
        case Some(names) => ChmodAll(u, p, mode, names)
      else Some(u)
  }

  function ChmodAll(t: Tree, p: Path, mode: nat, names: seq<string>): Option<Tree>
    decreases Depth(p), 0, |names|
  {
    if names == [] then Some(t)
    else if |p| > MAX_DEPTH then None
    else
      match ChmodTree(t, p + [names[0]], mode, false)
      case None => None
      case Some(u) => ChmodAll(u, p, mode, names[1..])
  }

  // ----- the steps -----

  function PlainMove(t: Tree, source: Path, target: Path, replace: bool): Option<Tree> {
    match MakeParent(t, target)
    case None => None
    case Some(u) =>
      var destination := DestinationFor(u, source, target);
      if destination in u && !replace then None
      else Rename(Without(u, destination), source, destination)
  }

  function MoveAll(t: Tree, source: Path, target: Path, names: seq<string>): Option<Tree>
    decreases |names|
  {
    if names == [] then Some(t)
    else
      var child, destination := source + [names[0]], target + [names[0]];
      if child == target then MoveAll(t, source, target, names[1..])
      else if destination in t then None
      else
        match Rename(t, child, destination)
        case None => None
        case Some(u) => MoveAll(u, source, target, names[1..])
  }

  function PlainMoveChildren(t: Tree, source: Path, target: Path): Option<Tree> {
    match MakeParents(t, target)
    case None => None
    case Some(u) =>
      match Listing(u, source)
      case None => None
      case Some(names) => MoveAll(u, source, target, names)
  }

  function PlainCopy(t: Tree, source: Path, target: Path, recursive: bool, overwrite: bool): Option<Tree> {
    match MakeParent(t, target)
    case None => None
    case Some(u) =>
      var destination := DestinationFor(u, source, target);
      if destination in u && !overwrite then None
      else CopyTree(Without(u, destination), source, destination, recursive)
  }

  /** Whether the filters of a removal select the entry. */
  predicate Selected(n: Node, symlinkTargetContains: Option<string>, contentContains: Option<string>) {
    && (symlinkTargetContains.Some? ==> n.Link? && Contains(n.target, symlinkTargetContains.value))
    && (contentContains.Some? ==> n.File? && Contains(n.content, contentContains.value))
  }

  function RemoveEach(t: Tree, paths: seq<Path>, recursive: bool, link: Option<string>, content: Option<string>): Option<Tree>
    decreases |paths|
  {
    if paths == [] then Some(t)
    else if paths[0] !in t || !Selected(t[paths[0]], link, content) then
      RemoveEach(t, paths[1..], recursive, link, content)
    else if t[paths[0]].Dir? && !recursive then None
    else RemoveEach(Without(t, paths[0]), paths[1..], recursive, link, content)
  }

  function RemoveMatching(t: Tree, pattern: Path, recursive: bool, link: Option<string>, content: Option<string>): Option<Tree> {
    match Expand(t, pattern)
    case None => None
    case Some(paths) => RemoveEach(t, paths, recursive, link, content)
  }

  function RemoveAll(t: Tree, patterns: seq<Path>, recursive: bool, link: Option<string>, content: Option<string>): Option<Tree>
    decreases |patterns|
  {
    if patterns == [] then Some(t)
    else
      match RemoveMatching(t, patterns[0], recursive, link, content)
      case None => None
      case Some(u) => RemoveAll(u, patterns[1..], recursive, link, content)
  }

  function PlainInreplace(t: Tree, p: Path, before: string, after: string, firstOnly: bool): Option<Tree> {
    if p !in t || !t[p].File? || !Contains(t[p].content, before) then None
    else PutFile(t, p, Replaced(t[p].content, before, after, firstOnly))
  }

  function LinkEach(t: Tree, source: Path, target: Path, prefix: string, suffix: string, names: seq<string>): Option<Tree>
    decreases |names|
  {
    if names == [] then Some(t)
    else
      match PutLink(t, PathText(source + [names[0]]), target + [prefix + names[0] + suffix], false)
      case None => None
      case Some(u) => LinkEach(u, source, target, prefix, suffix, names[1..])
  }

  function PlainLinkChildren(t: Tree, source: Path, target: Path, prefix: string, suffix: string): Option<Tree> {
    match MakeParents(t, target)
    case None => None
    case Some(u) =>
      match Listing(u, source)
      case None => None
      case Some(names) => LinkEach(u, source, target, prefix, suffix, names)
  }

  function LinkInto(t: Tree, sources: seq<Path>, target: Path, force: bool): Option<Tree>
    decreases |sources|
  {
    if sources == [] then Some(t)
    else if sources[0] == [] then None
    else
      match PutLink(t, PathText(sources[0]), target + [Base(sources[0])], force)
      case None => None
      case Some(u) => LinkInto(u, sources[1..], target, force)
  }

  function PlainSymlinkGlob(t: Tree, pattern: Path, target: Path, force: bool): Option<Tree> {
    match Expand(t, pattern)
    case None => None
    case Some(sources) =>
      if sources == [] then Some(t)
      else if |sources| > 1 || (target in t && t[target].Dir?) then
        match MakeParents(t, target)
        case None => None
        case Some(u) => LinkInto(u, sources, target, force)
      else PutLink(t, PathText(sources[0]), target, force)
  }

  function ChmodEach(t: Tree, paths: seq<Path>, mode: nat, nonRecursive: bool): Option<Tree>
    decreases |paths|
  {
    if paths == [] then Some(t)
    else
      match ChmodTree(t, paths[0], mode, nonRecursive)
      case None => None
      case Some(u) => ChmodEach(u, paths[1..], mode, nonRecursive)
  }

  function ChmodMatching(t: Tree, pattern: Path, mode: nat, nonRecursive: bool): Option<Tree> {
    match Expand(t, pattern)
    case None => None
    case Some(paths) => ChmodEach(t, paths, mode, nonRecursive)
  }

  function ChmodPatterns(t: Tree, patterns: seq<Path>, mode: nat, nonRecursive: bool): Option<Tree>
    decreases |patterns|
  {
    if patterns == [] then Some(t)
    else
      match ChmodMatching(t, patterns[0], mode, nonRecursive)
      case None => None
      case Some(u) => ChmodPatterns(u, patterns[1..], mode, nonRecursive)
  }

  function PlainTouch(t: Tree, p: Path): Option<Tree> {
    match MakeParent(t, p)
    case None => None
    case Some(u) => if p in u then Some(u) else Create(u, p, File("", NEW_FILE_MODE))
  }

  /** One file-system step. */
  function Perform(t: Tree, kind: StepKind): Option<Tree> {
    match kind
    case Mkdir(path, parents) => if parents then MakeParents(t, path) else Create(t, path, Dir(NEW_DIR_MODE))
    case Touch(path) => PlainTouch(t, path)
    case Move(source, target, force, overwrite, sourceGlob) =>
      (match SourceOf(t, source, sourceGlob)
       case None => None
       case Some(path) => PlainMove(t, path, target, overwrite || force))
    case MoveChildren(source, target) => PlainMoveChildren(t, source, target)
    case Copy(source, target, recursive, overwrite, sourceGlob) =>
      (match SourceOf(t, source, sourceGlob)
       case None => None
       case Some(path) => PlainCopy(t, path, target, recursive, overwrite))
    case Remove(paths, recursive, link, content) => RemoveAll(t, paths, recursive, link, content)
    case Inreplace(path, before, after, firstOnly) => PlainInreplace(t, path, before, after, firstOnly)
    case LinkDir(source, target) => LinkTree(t, source, target)
    case LinkChildren(source, target, prefix, suffix) => PlainLinkChildren(t, source, target, prefix, suffix)
    case Symlink(text, target, force) => PutLink(t, text, target, force)
    case SymlinkGlob(source, target, force) => PlainSymlinkGlob(t, source, target, force)
    case Write(path, content, overwrite) => if path in t && !overwrite then Some(t) else PutFile(t, path, content)
    case Warn(_) => Some(t)
    case SetPermissions(paths, mode, nonRecursive) => ChmodPatterns(t, paths, mode, nonRecursive)
    case Run(_) => Some(t)
    case Maintenance(_) => Some(t)
  }

  // ----- whole runs -----

  predicate GuardHolds(t: Tree, guard: Guard) {
    match guard
    case IfExists(_, path) => path in t
    case UnlessExists(_, path) => path !in t
    case On(platform, host) => platform == host
  }

  /** Whether all guards hold, each evaluated once per run, and what is remembered afterwards. */
  function CheckGuards(t: Tree, guards: seq<Guard>, known: map<Guard, bool>): (bool, map<Guard, bool>) {
    if guards == [] then (true, known)
    else
      var known' := if guards[0] in known then known else known[guards[0] := GuardHolds(t, guards[0])];
      if known'[guards[0]] then CheckGuards(t, guards[1..], known') else (false, known')
  }

  function CommandNow(kind: StepKind): seq<string> {
    if kind.Run? then [kind.command] else []
  }

  function CommandLater(kind: StepKind): seq<string> {
    if kind.Maintenance? then [kind.command] else []
  }

  /** What one step leaves: the tree, the guards known, and the commands for now and for later. */
  datatype Progress = Progress(tree: Tree, known: map<Guard, bool>, now: seq<string>, later: seq<string>)

  function RunStep(t: Tree, step: Step, known: map<Guard, bool>): Option<Progress> {
    var (applies, known') := CheckGuards(t, step.guards, known);
    if !applies then Some(Progress(t, known', [], []))
    else
      match Perform(t, step.kind)
      case None => None
      case Some(u) => Some(Progress(u, known', CommandNow(step.kind), CommandLater(step.kind)))
  }

  /** The tree after a run and the commands issued: those of `Run` steps at once, maintenance after all. */
  datatype Outcome = Outcome(tree: Tree, ran: seq<string>, deferred: seq<string>)

  function RunSteps(t: Tree, steps: seq<Step>, known: map<Guard, bool>): Option<Outcome>
    decreases |steps|
  {
    if steps == [] then Some(Outcome(t, [], []))
    else
      match RunStep(t, steps[0], known)
      case None => None
      case Some(progress) =>
        match RunSteps(progress.tree, steps[1..], progress.known)
        case None => None
        case Some(rest) => Some(Outcome(rest.tree, progress.now + rest.ran, progress.later + rest.deferred))
  }
}
