# Zapbrew verification

A Dafny model of the algorithms in Zapbrew, a package manager in Rust, that change state and are hard to get
right by reading: the undo log of post-install steps, dependency queries, uninstalling and autoremoving,
downloads that resume, the signed API cache, prefix pruning, service schedules, completion links, and two small
pieces of layout and naming. `dafny verify dfyconfig.toml` checks all of it.

Code of the repository that changes things step by step is modelled by classes and methods with loops, each tied
by its `ensures` to functions and predicates on values; what the repository promises is proved about those.

How the model stands for the system:

- A file tree is a finite map from physical absolute paths to files, directories and links with their contents,
  targets and modes (`FileTree`). The system calls are methods of one mutable object (`FileSystem`); each may fail
  at any time, and partial writes and partial recursive removals are among the failures. `reliable` says that no
  call fails for reasons of its own. `Downloads.Cache` and `SignedCaches.SignedCache` treat local files alike.
- A server is an arbitrary function of the request number, the URL and the offset asked from, so a statement about
  all servers is one about all sequences of replies, adaptive ones included.
- Concurrency of a download batch is an arbitrary order in which the groups come through.
- What an operation comes to is said without the functions it is computed by: of post-install steps by the trees before
  and after (`TreeOutcomes`, `CopyOutcomes`, `LinkOutcomes`, `LinkTreeOutcomes`, `Replacements`, put together in
  `StepOutcomes` and, for whole runs, in `RunOutcomes`), of dependency queries by the declared dependencies
  (`DeclaredEdges`), of uninstalling and autoremoving by the receipts.
- Digests, signatures and UTF-8 validity are arbitrary functions. A `char` stands for one byte.

What the proofs brought to light, besides the promises that hold:

- **Globs.** The matcher compares bytes literally before it looks at `*` and `[`, so it agrees with the meaning of
  every closed pattern on a name exactly if the name holds neither `*` nor `[` (`Wildcards.AgreesExactly`, with the
  counterexamples `BreakAtStar` and `BreakAtBracket`).
- **Steps.** A recursive copy of a directory to a place below itself never succeeds: it finds its own copy until a directory
  lies too deep to be opened (`CopyOutcomes.CopyIntoItselfFails`). Of several matches of a link pattern with the same last
  component only the last is linked, by force, and without force the step fails (`LinkOutcomes.IntoLinked`).
- **Rollback.** Nothing reported means that the initial tree is back. When calls fail, an entry of the initial tree comes
  back whatever else fails if and only if no change of the run had moved it, or anything above it, away
  (`RollbackFaults.AlwaysBackExactly`); one that was moved is safe once the last replay that carries it is through, and
  not before (`SafeExactly`). Two ways to lose it: the journal directory is deleted even when putting a backup back has
  failed (`DeletedWithJournal` says exactly when), and undoing the creation of a directory deletes what could not be moved
  back out of it (`MovedEntryLost`), be it just put back from its backup (`PutBackLostLater`). The report need not name
  what is lost: after a failed put-back it names what exists then, which is the backup inside the journal directory,
  deleted next (`LostUnnamed`, for every entry of every tree). A failed replay may also be made good by a later one
  (`FailedCarrierMadeGood`).
- **Downloads.** The comment on `ArtifactFetchOptions` says that forcing a download skips what is cached, but the
  attempt still resumes a leftover `.incomplete` file. Without a declared digest the result is the blob exactly if the
  leftover was the start of it (`Downloads.CompletedIsBlob`; `LeftoverSpoils` gives an instance). And a leftover at
  least as long as the blob that does not have the declared digest, or for which none is declared, is never got rid
  of by a server that honours ranges: every attempt asks for a range past the end. `Cache.FetchArtifact` states
  exactly when a server that has everything is enough. While local files work, a bottle with a second origin that has
  everything always arrives.
- **Signed cache.** What is returned is what the cache verifies to in the end, whatever fails locally. That a cache which
  verified at the start still does needs only that reading it works, for a read that fails is taken for corruption and the
  file is deleted: offline, a verified cache is kept exactly if the first read goes through (`SignedCache.LoadSigned`).
- **Uninstall.** Without force, a formula named together with one it depends on keeps its older kegs, and one of them
  may still name what was removed (`Installed.UnforcedUninstallMayBreak`). That, or a dependent outside that was ignored,
  is exactly when something is left dangling (`Installed.NothingDanglesExactly`); by force with dependencies checked
  nothing is.
- **Pruning.** A link to an empty directory below a root is not broken when the plan is made and is once the directory
  is gone, so a second pruning can find more (`Cleanup.SecondPruningMayFind`): exactly if the first one took away something
  that a link it left leads through (`Cleanup.SecondPruningExactly`).
- **Completions.** A relative link leads back to its source exactly if the source stays below the root and the link's
  directory has no `..` beyond what both have in common (`Completions.LinkLeadsBack`).
- **Schedules.** A step so large that the value after the last one overflows a machine word is refused although all
  the values it picks are in bounds, and only such a sensible term is (`Crons.RefusedExactly`; the minute `1/4294967295`
  is one, `Crons.HugeStepRefused`).

## Model

| member | source | states |
|---|---|---|
| InstallSteps.Postinstall | crates/zapbrew-ops/src/postinstall.rs:48-73 | a run is all of the steps or none: done means that every step whose guards hold has come to its outcome, one after the other, and that the commands were run in order, maintenance last, and all went through; failed means exactly the initial tree; both are said of the trees alone and against the plain interpreter; without faults a run fails only at a step that applies and cannot be done; an incomplete rollback is one of a recoverable log, reports a nonempty set and leaves what its replays left, the journal directory deleted or reported; an incomplete cleanup leaves the finished tree and the journal directory it names |
| InstallSteps.Execute | crates/zapbrew-ops/src/install_steps.rs:258-300 | whatever call fails, the log stays recoverable, and of its changes only the newest may not have been made; on success the formula's side of the tree is what the plain steps make of it, and maintenance commands come after all others |
| InstallSteps.ExecuteEach | crates/zapbrew-ops/src/install_steps.rs:274-295 | steps in order, guards remembered for the whole run: the trees and answers in between make a chronicle in which each step that applies has come to its outcome, and the commands are those of the steps that apply; agrees with the plain interpreter; without faults it stops only at a step that cannot be done |
| InstallSteps.ExecuteStep | crates/zapbrew-ops/src/install_steps.rs:276-294 | one guarded step: what applies comes to its outcome, what does not leaves the tree alone, and a command that fails fails the step; equal to the plain interpreter's step |
| InstallSteps.GuardsMatch | crates/zapbrew-ops/src/install_steps.rs:2167-2198 | the step applies if and only if every guard holds: the answer it had before in the run, told apart by how its path is spelled, or else whether the path exists on the formula's side, does not, or the platform is the host's; answers from before stay, and the new ones are those up to the first guard that fails |
| InstallSteps.ExecuteFilesystemStep | crates/zapbrew-ops/src/install_steps.rs:1493-1627 | every kind of step keeps the log recoverable under any fault; when it succeeds the two trees are related as `StepOutcomes.Outcome` says for the kind; without faults it succeeds exactly when `Possible` says, where `Settles` holds; equal to the plain interpreter |
| InstallSteps.ExecuteMove | crates/zapbrew-ops/src/install_steps.rs:1629-1688 | the subtree is at the destination, with nothing else there, gone from where it was, and all else is as it was but for new directories above the destination; possible if and only if there is room, source and destination are apart and what stands there may be replaced; inverses recorded before the change stay right before and after it |
| InstallSteps.ExecuteMoveChildren | crates/zapbrew-ops/src/install_steps.rs:1690-1724 | all children but the target itself move into the target, which is made with what is above it, or the log takes back those that did; possible if and only if no destination is taken and none lies in what moves |
| InstallSteps.ExecuteCopy | crates/zapbrew-ops/src/install_steps.rs:1726-1774 | the destination becomes the same tree as the source, modes included, and all else stays but for new directories above it; possible if and only if there is room, source and destination are apart, a directory is copied recursively and is nowhere too deep to be opened |
| InstallSteps.CopyEntry | crates/zapbrew-ops/src/install_steps.rs:2636-2667 | the recursive copy below a recorded path keeps the log recoverable even when it stops half-way |
| InstallSteps.ExecuteRemove | crates/zapbrew-ops/src/install_steps.rs:1776-1828 | exactly the expanded matches that pass the filters are gone, with all below them; without `recursive` none of them may be a directory |
| InstallSteps.ExecuteInreplace | crates/zapbrew-ops/src/install_steps.rs:1830-1859 | the text is cut at the occurrences from left to right, or at the first, and the new text put between the pieces; possible if and only if there is a file and the text occurs; the old content is journalled |
| InstallSteps.LinkTree | crates/zapbrew-ops/src/install_steps.rs:1874-1912 | links a directory tree file by file |
| InstallSteps.ExecuteLinkChildren | crates/zapbrew-ops/src/install_steps.rs:1914-1942 | in the target there is a link to each child under prefix, name and suffix, and nothing else has changed; possible if and only if the source can be listed and no such name is taken |
| InstallSteps.CreateLink | crates/zapbrew-ops/src/install_steps.rs:2057-2084 | the link with that text stands at the path, and nothing else has changed but new directories above it; possible if and only if whatever lies above is a directory and the path is free or force is set |
| InstallSteps.ExecuteSymlinkGlob | crates/zapbrew-ops/src/install_steps.rs:1944-1994 | links to all matches of the pattern, in ascending order: none for no match, one at the target for one match, else one in the target under the last component of each |
| InstallSteps.ExecuteWrite | crates/zapbrew-ops/src/install_steps.rs:1996-2013 | without overwriting, an existing entry and all else stays as it was; otherwise exactly the file with that content stands there; the file is journalled before its parents, and undoing a parent may already delete it: the log stays recoverable all the same |
| InstallSteps.ExecuteTouch | crates/zapbrew-ops/src/install_steps.rs:1512-1532 | an entry that is there stays with all else; otherwise an empty file stands there |
| InstallSteps.ExecutePermissions | crates/zapbrew-ops/src/install_steps.rs:2015-2030 | exactly the matches, and unless they alone are meant all below them, have the mode, links excepted, and nothing else has changed; possible if and only if all that must be listed can be |
| InstallSteps.SetModeRecursive | crates/zapbrew-ops/src/install_steps.rs:2032-2055 | sets modes of a whole tree, links left alone |
| InstallSteps.CreateParents | crates/zapbrew-ops/src/install_steps.rs:2104-2148 | the directory is there, nothing has changed but that it and those above it may be new, each with its own inverse; possible if and only if whatever lies on the way is a directory |
| StepOutcomes.PerformDone | crates/zapbrew-ops/src/install_steps.rs:1493-1627 | for every kind of step and every tree: when the plain step is done, the trees before and after are related as `Outcome` says, naming only what stands where; and it is done exactly when `Possible` says |
| RunOutcomes.GuardsAnswered | crates/zapbrew-ops/src/install_steps.rs:2167-2198 | the guards are asked in order up to the first that fails, and each keeps its first answer |
| TreeOutcomes.ParentsMade | crates/zapbrew-ops/src/install_steps.rs:2104-2148 | directories on the way are made if and only if nothing but directories stands there, and nothing else changes |
| TreeOutcomes.FilePut | crates/zapbrew-ops/src/install_steps.rs:1996-2013 | a file in place of whatever stood there: it alone has changed, but for new directories above it |
| TreeOutcomes.LinkPut | crates/zapbrew-ops/src/install_steps.rs:2057-2084 | the same for a link, which replaces something only by force |
| TreeOutcomes.MoveDone | crates/zapbrew-ops/src/install_steps.rs:1629-1688 | where a move leaves every path of the tree, and exactly when it is possible |
| TreeOutcomes.ModeSet | crates/zapbrew-ops/src/install_steps.rs:2032-2055 | exactly the tree below a path gets the mode, links excepted, unless a directory lies too deep to be opened |
| TreeOutcomes.PatternsModeSet | crates/zapbrew-ops/src/install_steps.rs:2015-2030 | the same for all matches of all patterns, whatever their order |
| TreeOutcomes.PatternsRemoved | crates/zapbrew-ops/src/install_steps.rs:1776-1828 | one removal after another takes what the patterns match in the tree it starts from |
| CopyOutcomes.CopyFinished | crates/zapbrew-ops/src/install_steps.rs:1726-1774 | what a copy leaves at every path, and exactly when it is possible |
| CopyOutcomes.CopyIntoItselfFails | crates/zapbrew-ops/src/install_steps.rs:2636-2667 | a directory is never copied below itself: the copy would be copied again until it lies too deep |
| LinkOutcomes.EachLinked | crates/zapbrew-ops/src/install_steps.rs:1914-1942 | links to all children stand in the target if and only if none of the names was taken, prefixes and suffixes included |
| LinkOutcomes.IntoLinked | crates/zapbrew-ops/src/install_steps.rs:1974-1993 | of several matches with the same last component the last one is linked, and only by force |
| LinkOutcomes.ChildrenShifted | crates/zapbrew-ops/src/install_steps.rs:1690-1724 | where moving the children one by one leaves every path, also when source and target overlap |
| LinkTreeOutcomes.TreeLinked | crates/zapbrew-ops/src/install_steps.rs:1874-1912 | every file and link below the source is linked at its place in the target, every directory is a directory there, `.DS_Store` is passed over, and the rest of the target stays |
| Replacements.ReplacedIs | crates/zapbrew-ops/src/install_steps.rs:1846-1855 | a replacement keeps the pieces between the occurrences and puts the new text between them; an empty text occurs at both ends and between all bytes |
| StepJournals.StepJournal.Backup | crates/zapbrew-ops/src/install_steps.rs:304-324 | an entry moved into the journal is gone from the formula's side and either of the two inverses brings back the tree; it fails without faults only for a missing entry |
| StepJournals.StepJournal.ReplaceBeforeMutation | crates/zapbrew-ops/src/install_steps.rs:326-343 | makes room at a path; the inverse it records is right before and after anything is done there |
| StepJournals.StepJournal.Rollback | crates/zapbrew-ops/src/install_steps.rs:345-364 | whatever fails, every record is replayed last-first and then the journal directory deleted; the report is, for each failed replay, those of its paths that exist then, and the journal directory if it is still there; nothing reported means exactly the initial tree; without faults nothing is reported |
| StepJournals.StepJournal.TakeCleanupRoot | crates/zapbrew-ops/src/install_steps.rs:366-371 | hands over the journal directory if and only if one was made |
| StepJournals.StepJournal.constructor | crates/zapbrew-ops/src/install_steps.rs:194-199 | a new journal is recoverable |
| StepJournals.ApplyInverse | crates/zapbrew-ops/src/install_steps.rs:2804-2851 | a replayed inverse does what its function on trees says, whether or not its change ever happened; a failed one changes nothing but what it was to remove, and leaves something to report |
| RollbackFaults.FateExactly | crates/zapbrew-ops/src/install_steps.rs:345-351 | through any replays, failed ones included, an entry is at a path afterwards if and only if one was followed there, and it is the same but for its mode |
| RollbackFaults.MissingExactly | crates/zapbrew-ops/src/install_steps.rs:345-364 | after a rollback a path outside the journal directory is missing if and only if no entry ends up at it |
| RollbackFaults.LeavesJournalExactly | crates/zapbrew-ops/src/install_steps.rs:2814-2833 | what rests in the journal directory is out of it in the end, and not deleted with it, if and only if the replay of the one record that names its backup goes through, and then it is put where the record says |
| RollbackFaults.DeletedWithJournal | crates/zapbrew-ops/src/install_steps.rs:345-364 | an entry of the initial tree that rests in the journal directory is deleted with that directory if and only if the replay of the record that holds it fails |
| RollbackFaults.PutBackLostLater | crates/zapbrew-ops/src/install_steps.rs:345-364 | for every entry moved into a new directory and removed there: its backup is put back, the move back fails, and it is lost all the same |
| RollbackFaults.AlwaysBackExactly | crates/zapbrew-ops/src/install_steps.rs:345-364 | an entry of the initial tree comes back with what it held in every rollback, whatever fails, if and only if no change that was made and recorded had moved it or anything above it away |
| RollbackFaults.SafeExactly | crates/zapbrew-ops/src/install_steps.rs:345-364 | it comes back in every rollback whose first m replays go through if and only if no later replay carries it |
| RollbackFaults.KeptByCarriers | crates/zapbrew-ops/src/install_steps.rs:345-364 | an entry of the initial tree is back, the same one with what it held but for its mode, if every replay that carries it goes through, whatever else fails |
| RollbackFaults.LostUnnamed | crates/zapbrew-ops/src/install_steps.rs:2853-2880 | for every removed entry, a failed put-back loses it, and nothing that is reported exists any more or lies outside the journal directory |
| RollbackFaults.MovedEntryLost | crates/zapbrew-ops/src/install_steps.rs:2834-2843 | for every entry moved into a new directory, a failed move back loses it, and the report names only where it was |
| RollbackFaults.FailedCarrierMadeGood | crates/zapbrew-ops/src/install_steps.rs:2834-2843 | a failed move back can be made good by later replays: the initial tree is back although something is reported |
| StepJournals.BackupOutcome | crates/zapbrew-ops/src/install_steps.rs:320-324 | the rename into the journal is a removal seen from outside, undone by Replace and by Restore |
| StepJournals.ChangeBelowTop | crates/zapbrew-ops/src/install_steps.rs:336-341 | under a path the newest inverse removes, any change at all stays recoverable |
| StepJournals.MoveRecorded | crates/zapbrew-ops/src/install_steps.rs:1682-1686 | the inverse of a move, pushed before it, undoes it afterwards |
| StepJournals.ChmodRecorded | crates/zapbrew-ops/src/install_steps.rs:2044-2052 | the inverse of a mode change, pushed before it, undoes it afterwards |
| StepJournals.RecordCreated | crates/zapbrew-ops/src/install_steps.rs:2125-2145 | a created entry is undone by its removal |
| StepJournals.UndoAllWithJournal | crates/zapbrew-ops/src/install_steps.rs:311-315 | opening the journal directory in the middle of a run changes what no inverse recorded so far does |
| FileTree.RenameBack | crates/zapbrew-ops/src/install_steps.rs:2826-2836 | renaming a subtree to a free path and back is the identity on whole trees |
| Wildcards.WildcardMatch | crates/zapbrew-ops/src/install_steps.rs:2734-2779 | the loop that retries only the last star computes the scan it is specified by, and terminates |
| Wildcards.ClassMatches | crates/zapbrew-ops/src/install_steps.rs:2781-2802 | the index loop over a class body decides membership, ranges and negation included |
| Wildcards.ClassExact | crates/zapbrew-ops/src/install_steps.rs:2781-2802 | a class body is bytes and ranges, read as ranges first; it takes what one of them takes, or with `!` or `^` in front what none of them takes |
| Wildcards.GlobExact | crates/zapbrew-ops/src/install_steps.rs:2734-2779 | the meaning of a closed pattern: the text is cut into as many pieces as the pattern has parts, a star takes any piece, `?` and a class one byte, and any other byte itself |
| Wildcards.MatchesIsLiteralFirst | crates/zapbrew-ops/src/install_steps.rs:2734-2779 | retrying only the last star is complete: the scan accepts exactly what some choice for all stars accepts, for names without `[` |
| Wildcards.MatchesSound | crates/zapbrew-ops/src/install_steps.rs:2734-2779 | no name without `[` is accepted that the pattern does not mean |
| Wildcards.MatchesIsGlob | crates/zapbrew-ops/src/install_steps.rs:2734-2779 | for names without `*` and `[` the scan is the declarative glob relation |
| Wildcards.AgreesExactly | crates/zapbrew-ops/src/install_steps.rs:2734-2779 | scan and meaning agree on all closed patterns if and only if the name holds neither `*` nor `[` |
| Wildcards.BreakAtStar | crates/zapbrew-ops/src/install_steps.rs:2742 | for every name with a `*` byte, a pattern that means it and is rejected |
| Wildcards.BreakAtBracket | crates/zapbrew-ops/src/install_steps.rs:2742 | for every name with a `[` byte, a closed pattern that means it and is rejected |
| Globs.ExpandGlob | crates/zapbrew-ops/src/install_steps.rs:2686-2732 | the candidate loop equals the expansion function |
| Globs.ComponentMeaning | crates/zapbrew-ops/src/install_steps.rs:2686-2732 | a component is a pattern if and only if it holds `*`, `?` or `[`; on a name without `*` and `[` every closed component, pattern or not, matches what it means |
| Globs.ExpandExact | crates/zapbrew-ops/src/install_steps.rs:2686-2732 | an expansion lists exactly the paths of the tree that match component by component |
| Globs.ExpandReadable | crates/zapbrew-ops/src/install_steps.rs:2686-2732 | an expansion fails if and only if something that matches the front of the pattern would have to be listed and is no directory or too deep |
| Globs.ExpandAscends | crates/zapbrew-ops/src/install_steps.rs:2729-2731 | an expansion comes in ascending order without duplicates, so the final sort changes nothing |
| Globs.ExpandOutside | crates/zapbrew-ops/src/install_steps.rs:2686-2732 | a pattern that tells the journal directory apart expands the same with and without it |
| Catalogs.IndexCatalog | crates/zapbrew-api/src/catalog.rs:198-218 | each name leads to the last formula that has it, each alias and old name to the last formula that lists it |
| Catalogs.GetIsCanonical | crates/zapbrew-api/src/catalog.rs:110-125 | looking a found formula up by its own name finds it again |
| Catalogs.GetFindsKnown | crates/zapbrew-api/src/catalog.rs:110-125 | a lookup finds something if and only if some formula has the name or lists it as an alias or old name, and a formula's own name is never shadowed |
| Catalogs.GetPrefers | crates/zapbrew-api/src/catalog.rs:110-125 | an alias is preferred to an old name, and of several formulae that list it the last one counts |
| DeclaredEdges.EdgesExact | crates/zapbrew-ops/src/dependency.rs:425-491 | every declared dependency that counts is an edge with its tags and nothing else is: plain ones on every host, those used from macOS always on Linux and on macOS only below their bound; undecided exactly where a bound is unknown or the host universal |
| DeclaredEdges.EdgesInOrder | crates/zapbrew-ops/src/dependency.rs:425-442 | in the declared order, the plain ones first |
| DeclaredEdges.IncludesExact | crates/zapbrew-ops/src/dependency.rs:53-69 | an edge is followed if it has no tags or one that is allowed, and is not a recommended one to be skipped |
| DeclaredEdges.NextExact | crates/zapbrew-ops/src/dependency.rs:425-450 | the queries step from one formula to another if and only if it declares a dependency that counts and is followed, by a name that leads there |
| DeclaredEdges.ResolvedExact | crates/zapbrew-ops/src/dependency.rs:425-450 | a formula can be visited if and only if its bounds are decided and all it declares and the query follows exists |
| DependencyGraphs.HuntExact | crates/zapbrew-ops/src/dependency.rs:337-371 | the depth-first search from a formula finds a cycle if and only if the formula reaches one |
| DependencyGraphs.HuntFinds | crates/zapbrew-ops/src/dependency.rs:345-350 | what the search reports is a real cycle that the formula reaches |
| DependencyExpansion.Traversal.Visit | crates/zapbrew-ops/src/dependency.rs:337-371 | skipping completed formulae reports the very cycle the search without memory reports; otherwise the formula is finished after all it depends on, and every edge seen is merged once |
| DependencyExpansion.ExpansionFound | crates/zapbrew-ops/src/dependency.rs:137-171 | a finished traversal lists exactly the non-root formulae that the roots reach, each once, after its dependencies, with tags merged over all included edges, and no reachable cycle exists |
| DependencyExpansion.MergeSeen | crates/zapbrew-ops/src/dependency.rs:319-323 | merged tags stay the maximum necessity, the conjunction of build and the disjunction of test over the edges seen |
| DependencyExpansion.HuntRootsExact | crates/zapbrew-ops/src/dependency.rs:137-145 | searching the roots in order finds a cycle if and only if some root reaches one |
| DependencyExpansion.ResolveRoots | crates/zapbrew-ops/src/dependency.rs:124-136 | canonical root names, each once, or the first name that is unknown |
| DependencyExpansion.RootNamesTold | crates/zapbrew-ops/src/dependency.rs:124-136 | the roots are the formulae that the requested names lead to, each once, if all of them lead somewhere |
| DependencyExpansion.ExpansionIsTold | crates/zapbrew-ops/src/dependency.rs:137-171 | an expansion of the graph is the one told from the declared dependencies, tags included |
| DependencyExpansion.ErrorIsTold | crates/zapbrew-ops/src/dependency.rs:337-371 | every reported error is found where the roots lead |
| DependencyExpansion.LinuxIsTold | crates/zapbrew-ops/src/dependency.rs:472-474 | on Linux every untagged dependency that a root or a listed formula declares is listed or a root |
| DependencyExpansion.WantedIsTold | crates/zapbrew-ops/src/dependency.rs:146-170 | pouring leaves out exactly what was not asked to build or test, in the same order |
| DependencyExpansion.Expand | crates/zapbrew-ops/src/dependency.rs:119-172 | told from the declared dependencies: success lists, once each and after what it needs, exactly what the roots lead to, with required, build and test as the dependencies on it say, and then nothing is wrong anywhere the roots lead; to pour, what is only for building or testing is left out; on Linux every untagged dependency of either kind is listed; a failure names a cycle, a missing name or an undecided bound where the roots lead, on a closed catalog the first cycle of the reference search |
| DependencyTrees.TreeRenderer.Visit | crates/zapbrew-ops/src/dependency.rs:383-417 | the renderer, which enters shared subtrees again, prints the unfolded outline and records the cycle of the reference search |
| DependencyTrees.OutlineMarksCycles | crates/zapbrew-ops/src/dependency.rs:399-408 | a line is marked as circular if and only if a cycle is found |
| DependencyTrees.Tree | crates/zapbrew-ops/src/dependency.rs:175-194 | the lines draw the unfolded tree: the root, then every place below it once, parents first, with bars, corner or tee, name and mark; the cycle is one that the root leads to, or there is none |
| DependencyTrees.LinesDrawTree | crates/zapbrew-ops/src/dependency.rs:383-417 | for every place of the unfolded tree one line: a bar for each level that goes on, blanks for one that does not, a corner for the last child, and the mark exactly on formulae that stand on their own path |
| DependencyTrees.ChildrenInOrder | crates/zapbrew-ops/src/dependency.rs:388-398 | the children are what the followed edges lead to, in the order of the edges |
| DependencyTrees.CycleIsTold | crates/zapbrew-ops/src/dependency.rs:399-405 | the recorded cycle goes round by declared dependencies and the root leads to it; none is recorded only if there is none |
| DependencyTrees.TreeAgreesWithExpansion | crates/zapbrew-ops/src/dependency.rs:175-194 | on a closed catalog the tree records a cycle if and only if the expansion fails, and both report the very same one |
| DependencyUses.Reachability.CollectReachable | crates/zapbrew-ops/src/dependency.rs:513-532 | the reverse lookup's search reaches exactly what the candidate depends on through other formulae |
| DependencyUses.FormulaReachesAll | crates/zapbrew-ops/src/dependency.rs:493-511 | a candidate counts if and only if it depends on every target, directly or recursively |
| DependencyUses.Uses | crates/zapbrew-ops/src/dependency.rs:197-227 | the sorted names of exactly the non-target formulae from which a chain of declared dependencies, or one of them, leads to every target |
| DependencyUses.UsesAreTold | crates/zapbrew-ops/src/dependency.rs:197-227 | using in the graph is using by the declared dependencies |
| DependencyUses.UsesInvertsExpansion | crates/zapbrew-ops/src/dependency.rs:197-227 | a formula uses a target set if and only if it is no target and its expansion lists every target |
| DependencyUses.UsesAgreesWithExpansion | crates/zapbrew-ops/src/dependency.rs:197-227 | for a real host, known targets and a closed catalog both queries answer, the expansion if and only if the candidate reaches no cycle; and when both answer, they give inverse answers |
| Installed.Preflight | crates/zapbrew-ops/src/uninstall.rs:166-234 | proceeds if and only if all is installed, no outside formula depends on it unless ignored, and nothing is pinned unless forced; refuses for the first of these that fails, naming all outside dependents or the alphabetically first name that is missing or pinned |
| Installed.RemoveLocked | crates/zapbrew-ops/src/uninstall.rs:69-151 | what is reported as still installed is exactly what the removal leaves of the named formulae |
| Installed.UninstallKeepsDependencies | crates/zapbrew-ops/src/uninstall.rs:180-221 | after a checked uninstall only formulae named with it can still depend on a removed one, and by force none does |
| Installed.NothingDanglesExactly | crates/zapbrew-ops/src/uninstall.rs:180-246 | no formula left depends on a removed one if and only if no formula outside did and none named with it keeps a keg that does, which by force none can |
| Installed.DependentsAfterRemoval | crates/zapbrew-ops/src/uninstall.rs:236-246 | exactly which formulae still depend on a name after any uninstall |
| Installed.UnforcedUninstallMayBreak | crates/zapbrew-ops/src/uninstall.rs:236-246 | without force a named formula can keep an older keg that still needs a removed one |
| Installed.ForcedRemoval | crates/zapbrew-ops/src/uninstall.rs:236-246 | by force exactly the named formulae disappear |
| Installed.TargetsExact | crates/zapbrew-ops/src/uninstall.rs:236-246 | without force one keg goes: the first linked, else the first opt-linked, else the latest |
| Installed.RemovalIsTold | crates/zapbrew-ops/src/uninstall.rs:69-151 | by force a named rack goes; otherwise a rack of one keg goes and of any other exactly the kegs of the chosen one's version, the rest staying in order; racks not named stay |
| Installed.MatchesExactly | crates/zapbrew-ops/src/state.rs:381-383 | a receipt names a formula if and only if what follows the last slash is the same in both |
| Installed.DependentsExact | crates/zapbrew-ops/src/state.rs:146-162 | the dependents are the installed formulae some keg of which records a dependency of that name |
| Autoremove.Fixpoint | crates/zapbrew-ops/src/autoremove.rs:90-112 | terminates with the least set closed under: not requested, and all dependents already in the set |
| Autoremove.StaysExactly | crates/zapbrew-ops/src/autoremove.rs:90-112 | a formula stays if and only if a requested formula or a cycle reaches it through dependents |
| Autoremove.LeastIsTold | crates/zapbrew-ops/src/autoremove.rs:69-112 | the least closed set is told by the receipts alone |
| Autoremove.NothingDangles | crates/zapbrew-ops/src/autoremove.rs:38-67 | after the removal no remaining formula names a removed one |
| Autoremove.SecondRunFindsNothing | crates/zapbrew-ops/src/autoremove.rs:38-42 | a second run finds nothing |
| Autoremove.Run | crates/zapbrew-ops/src/autoremove.rs:38-67 | removes exactly the installed formulae that nobody needs: those from which no chain of receipts leads to a formula asked for by one of its kegs or back onto itself; nothing with a keg installed on request goes; a dry run changes nothing |
| Autoremove.Uninstall | crates/zapbrew-ops/src/uninstall.rs:60-66 | proceeds on exactly the preflight's conditions; what is left is what the uninstall leaves, told keg by keg, without exactly the formulae that nobody needs then, or all of it when switched off; nothing with a keg installed on request is autoremoved; and exactly when something left still depends on a removed formula, which after a checked and forced uninstall never happens |
| Downloads.Cache.Attempt | crates/zapbrew-net/src/download.rs:570-674 | against any reply, what one attempt leaves is the kept bytes and a prefix of the body on a matching 206, a prefix of the body on a 200, and nothing changed otherwise |
| Downloads.Cache.StreamBody | crates/zapbrew-net/src/download.rs:657-673 | a body that breaks off leaves a prefix of what arrived |
| Downloads.HonestReplyKeepsPart | crates/zapbrew-net/src/download.rs:590-612 | if bodies are cut-off prefixes of a blob or of its tail from the stated offset, the file in flight stays a prefix of the blob |
| Downloads.WholeReplyReceived | crates/zapbrew-net/src/download.rs:580-612 | a server that has everything completes what was kept, or changes nothing when that is past the end |
| Downloads.CompletedIsBlob | crates/zapbrew-net/src/download.rs:580-582 | a resume gives the blob if and only if what was kept is the start of it |
| Downloads.LeftoverSpoils | crates/zapbrew-net/src/download.rs:32-40 | a leftover that a forced download resumes all the same, and one that it cannot get past |
| Downloads.Cache.FetchArtifact | crates/zapbrew-net/src/download.rs:49-164 | at most five requests, and all five before giving up; with a declared digest the final file is only replaced by bytes of that digest; success means that file, digest and alias are in place and that the file is what the last attempt brought after what the earlier ones had left; after a failure the file in flight is what five failed attempts in a row leave: nothing kept for a resume is lost unless the server starts over or a whole file has another digest; an honest server keeps it a prefix of the blob; against a server that has everything it succeeds if and only if a file at hand has the digest or the leftover is not past the end |
| Downloads.Cache.Reuse | crates/zapbrew-net/src/download.rs:59-92 | what is had without the network, and that it is had whenever a file at hand has the digest |
| Downloads.Cache.Settle | crates/zapbrew-net/src/download.rs:98-145 | a mismatch throws the file in flight away and keeps final file and alias |
| Downloads.Cache.TryArtifact | crates/zapbrew-net/src/download.rs:96-150 | one attempt and what follows: a broken attempt keeps what was kept and adds a part of what arrived, a whole file of another digest is thrown away and named a mismatch, a whole file is published as it is |
| Downloads.FailuresKeepPart | crates/zapbrew-net/src/download.rs:146-149 | through any number of failed attempts at a server that honours ranges, what was kept stays the start of what is kept |
| Downloads.Cache.TryOrigin | crates/zapbrew-net/src/download.rs:237-273 | five attempts at one origin, each leaving the file in flight as one failed attempt does, or one that brings the whole |
| Downloads.Cache.FetchBottle | crates/zapbrew-net/src/download.rs:196-280 | at most ten requests, five without a second origin; the digest guards the final file; a second origin that has everything suffices whatever the first one does |
| Downloads.Cache.Publish | crates/zapbrew-net/src/cache.rs:198-213 | the final file changes at once, to exactly the bytes in flight, or nothing does |
| Downloads.Cache.EnsureAlias | crates/zapbrew-net/src/cache.rs:237-249 | the alias leads to the file afterwards, whatever else stood there; a directory in its place is left alone and nothing else keeps a working system from it |
| Batches.Prepare | crates/zapbrew-net/src/download.rs:368-465 | accepts a batch if and only if every request is admissible, no alias stands for two URLs and no URL has two declared digests; the groups are the requests by URL |
| Batches.MembersComplete | crates/zapbrew-net/src/download.rs:426-457 | every request is in the group of its URL |
| Batches.DownloadArtifacts | crates/zapbrew-net/src/download.rs:477-567 | in whatever order groups come through, every slot is filled with its own URL's content and its own alias; if groups fail and no alias does, the error is that of the failing group with the smallest request index, and all requests before it carry their content; while local files work and no directory takes an alias, all is well if and only if no group fails, and each clean group whose server has everything fails if and only if its files at hand are in the way, whatever the other servers do; on clean files each failure has cost all five attempts |
| Batches.RunGroup | crates/zapbrew-net/src/download.rs:491-551 | a group fills exactly its own slots and touches only its own file and aliases; it gives up only after all attempts; against a server that has everything it fails if and only if the files at hand keep it from being fetched |
| Batches.SpreadFailure | crates/zapbrew-net/src/download.rs:537-549 | the real error goes to the group's first request, so no placeholder is ever returned first |
| Batches.FanOut | crates/zapbrew-net/src/download.rs:524-536 | each member gets the shared content under its own alias |
| Batches.Collect | crates/zapbrew-net/src/download.rs:553-566 | all artifacts, or the first error in request order with every earlier request carrying its content; no slot is missing |
| Batches.OrderDoesNotMatter | crates/zapbrew-net/src/download.rs:522-551 | two successful runs in different orders leave the same aliases |
| SignedCaches.SignedCache.LoadSigned | crates/zapbrew-api/src/transport.rs:90-157 | a returned payload is always what the cache verifies to in the end; while reading works, a cache that verified at the start still does, unchanged or replaced by a newly verified body, whatever writing does; offline it is kept and answers, in either mode, if and only if the first read goes through; and exactly which downloads give an answer |
| SignedCaches.SignedCache.FetchAndStore | crates/zapbrew-api/src/transport.rs:160-234 | while local files work the downloads settle it: a verified body is stored and returned, a 304 or no answer leaves a verified file and returns it, a file that does not verify is thrown away, and only a body that does not verify or a 304 on such a file is tried again, once; while reading works a verified cache stays verified |
| SignedCaches.AnsweredExactly | crates/zapbrew-api/src/transport.rs:172-233 | exactly which downloads give an answer, from a verified file and from any other |
| SignedCaches.SignedCache.FallBack | crates/zapbrew-api/src/transport.rs:243-275 | falls back if and only if there is a verified payload that can be read, and then leaves the file alone |
| SignedCaches.SignedCache.ReadVerified | crates/zapbrew-api/src/transport.rs:372-385 | nothing, bad, or the verified payload |
| Cleanup.PrunePrefix | crates/zapbrew-ops/src/cleanup.rs:158-200 | a failed plan changes nothing; else everything planned is gone but what is reported, and what stays is as it was; when nothing is reported an entry is gone if and only if it lay in one of the directories links are made in with nothing at or below it but directories and links that lead to something missing; without faults every directory was empty when its turn came and nothing is reported |
| Cleanup.CollectBrokenSymlinks | crates/zapbrew-ops/src/cleanup.rs:502-515 | finds exactly the broken links below a directory |
| Cleanup.CollectEmptyDirectories | crates/zapbrew-ops/src/cleanup.rs:517-550 | adds exactly the directories with nothing below them but directories and broken links, the root left out |
| Cleanup.CollectPrefixCandidates | crates/zapbrew-ops/src/cleanup.rs:454-479 | the whole plan over all roots |
| Cleanup.ApplyFileCandidates | crates/zapbrew-ops/src/cleanup.rs:689-711 | what is not reported is gone, and nothing else |
| Cleanup.ApplyDirectoryCandidates | crates/zapbrew-ops/src/cleanup.rs:713-741 | deepest first, a directory that only nests planned ones is empty when its turn comes |
| Cleanup.RootsApart | crates/zapbrew-ops/src/cleanup.rs:17-27 | no link root lies at or below another |
| Cleanup.BelowRootsExactly | crates/zapbrew-ops/src/cleanup.rs:17-27 | which paths lie below a link root: the eight named directories and `var/homebrew/linked` |
| Cleanup.RootsSurvive | crates/zapbrew-ops/src/cleanup.rs:537 | the roots survive |
| Cleanup.NoEmptyDirectoryLeft | crates/zapbrew-ops/src/cleanup.rs:517-550 | below a root every directory left holds something that is left |
| Cleanup.GoneExactly | crates/zapbrew-ops/src/cleanup.rs:454-467 | the deepest-first plan takes an entry if and only if it lies strictly below a root and there is no file and no sound link at or below it; what stays is as it was |
| Cleanup.PrunedWellFormed | crates/zapbrew-ops/src/cleanup.rs:713-741 | nothing is left without its directory |
| Cleanup.SecondPruningExactly | crates/zapbrew-ops/src/cleanup.rs:454-467 | a second pruning finds nothing if and only if the first took away nothing that a link it left leads through |
| Cleanup.LinkToHollowBreaks | crates/zapbrew-ops/src/cleanup.rs:517-550 | for every tree: a sound link to a directory that holds nothing useful is doomed only once that directory is pruned |
| Cleanup.SecondPruningMayFind | crates/zapbrew-ops/src/cleanup.rs:517-550 | a tree in which a second pruning finds more |
| Crons.PushCronRange | crates/zapbrew-ops/src/services.rs:993-1000 | pushes in ascending order exactly the values stepped on, and fails if and only if the value past the end overflows 32 bits |
| Crons.ParseCronTerm | crates/zapbrew-ops/src/services.rs:952-991 | accepts exactly the terms of the grammar within bounds and adds exactly the values they pick |
| Crons.TermIsRead | crates/zapbrew-ops/src/services.rs:952-991 | for every form of term, a written term is read if and only if it is sensible, and then as the span it means |
| Crons.OneNumberField | crates/zapbrew-ops/src/services.rs:885-948 | a field of one number is accepted if and only if there is such a minute, hour, day, month or weekday |
| Crons.SpacesExact | crates/zapbrew-ops/src/services.rs:885-908 | which bytes are white space |
| Crons.WordsExact | crates/zapbrew-ops/src/services.rs:885-908 | the text is its words with white space between any two |
| Crons.ParseU32Exact | crates/zapbrew-ops/src/services.rs:952-991 | digits, with or without a plus in front, within bounds, and nothing else is a number |
| Crons.RefusedExactly | crates/zapbrew-ops/src/services.rs:993-1000 | a sensible term is refused if and only if one step past the last value it picks overflows 32 bits |
| Crons.HugeStepRefused | crates/zapbrew-ops/src/services.rs:952-1000 | such a term: the minute `1/4294967295` picks the first minute and is refused |
| Crons.ParseCronField | crates/zapbrew-ops/src/services.rs:934-948 | the loop equals the meaning of the field |
| Crons.FieldIsCanonical | crates/zapbrew-ops/src/services.rs:934-948 | every accepted field is ascending, free of duplicates, nonempty and in bounds |
| Crons.ParseCron | crates/zapbrew-ops/src/services.rs:885-908 | accepts exactly five well-formed fields whose product is at most 4096 |
| Crons.CombinationsAreProduct | crates/zapbrew-ops/src/services.rs:916-929 | the checked product never overflows for parsed fields |
| Crons.PlistCalendar | crates/zapbrew-ops/src/services.rs:1316-1361 | one dictionary if and only if the product is one, else the rows of the product |
| Crons.SpreadRows | crates/zapbrew-ops/src/services.rs:1345-1355 | the nested loops extend the rows in row-major order |
| Crons.RowCount | crates/zapbrew-ops/src/services.rs:1344-1355 | there are exactly as many rows as the product of the set sizes |
| Crons.RowsAscend | crates/zapbrew-ops/src/services.rs:1342-1355 | the rows come in ascending lexicographic order |
| Crons.DictionariesDistinct | crates/zapbrew-ops/src/services.rs:1356-1368 | no two dictionaries of a schedule are the same |
| Crons.TimesMatchRows | crates/zapbrew-ops/src/services.rs:1316-1361 | a time satisfies all five fields if and only if it matches some row |
| Crons.TimesMatchDictionaries | crates/zapbrew-ops/src/services.rs:1316-1368 | the same for the dictionaries that are written |
| Crons.PrintParseRoundTrip | crates/zapbrew-ops/src/services.rs:1390-1405 | a parsed field printed for systemd and parsed again is the same field, padding and star included |
| Crons.PrintExact | crates/zapbrew-ops/src/services.rs:1390-1405 | two digits if padded, no leading zero otherwise |
| Crons.WeekdaysAgree | crates/zapbrew-ops/src/services.rs:1376-1386 | the weekdays named for systemd are those on which the field holds |
| Crons.CalendarReadsBack | crates/zapbrew-ops/src/services.rs:1371-1388 | the whole systemd expression, taken apart again, gives back all five fields, each in its place: the named weekdays are those of the field, and there are none exactly if it is unrestricted |
| Crons.RenderingsAgree | crates/zapbrew-ops/src/services.rs:1316-1388 | the systemd expression and the launchd dictionaries of one schedule match exactly the same times |
| Columns.Columns | crates/zapbrew-ops/src/render.rs:4-39 | the output is one item a line if two columns do not fit, else a table in which every item stands in its row and column, the longest cells fitting and nothing but blanks between; no subtraction underflows on the way |
| Columns.ColumnsHoldItems | crates/zapbrew-ops/src/render.rs:12-20 | evened-out columns still hold the longest item, saturation included |
| Columns.ShapeIsTight | crates/zapbrew-ops/src/render.rs:12-20 | as many columns as fit, the fewest rows they need, the fewest columns those rows need, and the widest columns the width allows |
| Columns.LayoutIsLaidOut | crates/zapbrew-ops/src/render.rs:4-39 | where every item stands, in both branches |
| Columns.TerminatedSplits | crates/zapbrew-ops/src/render.rs:23-36 | the output splits back into the lines |
| Columns.LinesFit | crates/zapbrew-ops/src/render.rs:23-36 | every line fits the width whenever two columns fit |
| Columns.ItemPosition | crates/zapbrew-ops/src/render.rs:23-36 | item i stands in row i mod rows at the start of column i div rows, followed by blanks up to the next column or else by the end of the line: the cells lie end to end, so a line holds nothing else |
| Columns.CellInLine | crates/zapbrew-ops/src/render.rs:25-35 | in a line from any start, the cell of the item so many steps along stands that many columns to the right, and the last one ends the line |
| Completions.RelativePathFrom | crates/zapbrew-cli/src/completions.rs:525-555 | the loops compute the path up out of what is not common and down again |
| Completions.Normalize | crates/zapbrew-cli/src/completions.rs:559-575 | pushes and pops compute lexical normalization, None above the root |
| Completions.SpellingIsRead | crates/zapbrew-cli/src/completions.rs:538-555 | a relative path is read back as the components it was spelled from |
| Completions.LinkLeadsBack | crates/zapbrew-cli/src/completions.rs:431-467 | a link leads to the target it was made for if and only if the target normalizes and the link's directory has no `..` beyond the common part |
| Completions.PlainLinkLeadsBack | crates/zapbrew-cli/src/completions.rs:525-575 | between paths without `..`, joining and normalizing gives the target |
| Completions.UpInLinkBreaks | crates/zapbrew-cli/src/completions.rs:431-467 | a link directory with `..` for which it fails |
| Completions.LinkOne | crates/zapbrew-cli/src/completions.rs:378-394 | afterwards the link leads back if and only if a link to that source can, or it did before; only it and new directories above it changed |
| Completions.LinkAll | crates/zapbrew-cli/src/completions.rs:136-147 | success means that exactly those files are linked to which a link can lead back or did before; nothing is changed but destinations, and nothing is new but destinations and directories above them; with destinations none of which lies above another it fails only when refused beforehand or by the system |
| Completions.PreflightLink | crates/zapbrew-cli/src/completions.rs:303-323 | refuses if and only if some destination cannot take a link |
| Completions.AllLinked | crates/zapbrew-cli/src/completions.rs:412-424 | true if and only if every managed link leads back |
| Completions.UnlinkOne | crates/zapbrew-cli/src/completions.rs:396-410 | removes the link only if it leads back, and its directory only if that is empty then |
| Completions.UnlinkAll | crates/zapbrew-cli/src/completions.rs:151-160 | exactly the links that lead back disappear, besides directories that held one |
| FamilyKeys.NormalizeFamilyKey | crates/zapbrew-ops/src/link.rs:252-273 | terminates with a stem: the name is the stem and a sequence of suffixes, and the stem ends in none |
| FamilyKeys.SuffixesExact | crates/zapbrew-ops/src/link.rs:252-273 | a suffix is `-full`, or an at sign with digits and dots behind it |
| FamilyKeys.StemIsUnique | crates/zapbrew-ops/src/link.rs:252-273 | the stem, and even the sequence of suffixes, is unique |
| FamilyKeys.KeyIsIdempotent | crates/zapbrew-ops/src/link.rs:252-273 | a key is its own key |
| FamilyKeys.SuffixKeepsFamily | crates/zapbrew-ops/src/link.rs:252-273 | one suffix more changes nothing about the stem |
| FamilyKeys.FamiliesPartition | crates/zapbrew-ops/src/link.rs:277-294 | sharing a key is an equivalence |
| FamilyKeys.FamilySiblingNames | crates/zapbrew-ops/src/link.rs:277-294 | exactly the other formulae of the family, each full name once |

## Left out

- StepOutcomes.PerformDone: a tree of links whose target overlaps what it links has no outcome of its own, and a removal of which an earlier pattern may take away what keeps a later one from being expanded is said to be possible only if all patterns can be expanded at the start; both still equal the plain interpreter, which follows the code.
- Commands of `run` and maintenance steps: what they do to the tree. They are taken to leave it alone. In which order they are run, that one that fails is the last and fails the run, and that a run is only done if all of them went through is modelled.
- Template expansion, path resolution, confinement checks and JSON parsing of steps: steps arrive typed, with absolute physical paths that cannot reach the journal directory.
- Symbolic links as intermediate components, and files reached through a final link (`inreplace` of a link, parents created through a link): such a step fails in the model.
- Inspecting an entry (`symlink_metadata`) never fails for reasons of its own in the file-tree models.
- The name of the journal directory is chosen once and free at the start; the search for a free name is not modelled, nor is the saturation of the backup counter at its machine limit.
- Opening a directory fails beyond 2048 components; no other limit on paths is modelled. This is what ends a copy into its own subtree.
- The final sort and removal of duplicates of a glob expansion are not calls in the model, because Globs.ExpandAscends shows that they change nothing.
- Races with other processes, locks, file times, ownership, and names that are not UTF-8.
- The transaction around an upgrade, cask commands, pouring, linking and relocating kegs: not among the algorithms modelled.
- Installed.AfterRemoval: the removal transaction is taken to go through as a whole; its own rollback is not modelled.
- DependencyTrees.Tree: the reason of a failure (unknown name, undecided macOS bound) is not told apart; DependencyExpansion.Expand tells it.
- DependencyUses.Uses: assumes that no two formulae share a name, and leaves casks out.
- macOS versions are numbers; parsing their names is not modelled.
- HTTP, redirects, authorization headers, retry delays and progress; header syntax: a reply carries its status, the first offset of its content range and its chunks.
- Downloads.Cache.FetchArtifact: two URLs never share a content path, which holds up to collisions of the URL digest; and with `force`, that nothing cached is used is not stated, because the code does resume.
- Batches.Prepare: URL syntax and name segments are an arbitrary predicate; the batch of bottles (`download_all`) is left out, being the same scheme without groups.
- SignedCaches.SignedCache.LoadSigned: an empty envelope is taken not to verify; the two URLs of one download round count as one download.
- Cleanup.PrunePrefix: where a link leads is a fixed set of paths it needs. Sizes, formula, cache and lock candidates are left out.
- Crons.ParseCron: words are split at ASCII white space only.
- Completions.LinkAll: installing the shipped sources and finding the files of taps are left out; destinations are distinct.
- Reporting, command-line parsing and configuration.
