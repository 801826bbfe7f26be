# agentm, verified

A Dafny model of the parts of agentm that compute something hard: the merge-order
recommendation, the numbered-task names and their lookup, the compare-and-swap writer, the managed
section of `GEMINI.md` and the payload read back out of it, the alias backfill with its journal, the
pruned vault walk, the vocabulary migration, the design-governance resolver with its commit-time
gate, version ranges, and the memory-root key with its setter and two readers.

`dafny verify dfyconfig.toml` checks the whole project.

| file | part of the system |
|---|---|
| `Text.dfy`, `Sorting.dfy` | string search, trimming, splitting; `sorted` and the code-point order |
| `DependencyGraph.dfy`, `Kahn.dfy`, `MergeOrder.dfy` | `scripts/merge_order.py` |
| `TaskNames.dfy`, `TaskStore.dfy`, `TaskRuns.dfy` | task names in `scripts/harness_memory.py` and the mover in `daemon/internal/dreaming/taskmover.go`: the names, the operations on disk, every run |
| `CasWriter.dfy` | `safe_write_replace_style` and any number of writers |
| `ManagedSection.dfy`, `PayloadRender.dfy` | `scripts/merge-managed-section.py`, `scripts/payload_render.py` |
| `AliasText.dfy`, `AliasLine.dfy`, `AliasJournal.dfy` | `scripts/alias_backfill.py` |
| `VaultWalk.dfy` | `scripts/check-vault-frontmatter.py` |
| `TypeCollapse.dfy` | `scripts/migrate_type_collapse.py` |
| `Governs.dfy` | `scripts/governs_resolver.py`, `scripts/check-governs-index.py` |
| `VersionMatch.dfy` | `scripts/capability_version_match.py` |
| `MemoryRoot.dfy` | `scripts/agentm_config.py` and the two readers of one key |

Conventions. A regular expression is stated as what it matches ("the first BEGIN with the first END
behind it"); a dictionary is a `map`, a folder a set of names, the disk a class with fields. Python's
exceptions are constructors of an outcome datatype. The loops of the source are methods, each proved
against a predicate or function of the state; the results are lemmas about those.

Where the code and its own words differ, the model follows the code:

- `_topo_sort` also raises on a repeated slug, and the slugs it prints are not a cycle but the largest
  set of plans that wait on each other, which may include plans that only depend on a cycle.
- `merge` promises to preserve everything outside the markers; a target that holds only blanks is
  overwritten, and a BEGIN without an END makes the second merge swallow the text behind it. Where a
  comment's end follows such a BEGIN, the parity check reads the wrong text out of a fresh merge.
- The documented calling pattern of `safe_write_replace_style` passes no hash for a file that did not
  exist, so creating a file is never compared, with or without the mutex.
- "A second run is a no-op" does not hold for a note that repeats `kind` (or `type`) when the first
  of them is renamed: the second plan refuses every such note. A repeated `status` and overlapping registers
  are harmless. `rewrite_line` keeps nothing behind the value, since the value it is given is
  already everything behind the colon.
- A note without a closing fence is read, and edited, to its last line.
- `reapply` restores "exactly what `revert` removed" for the journal of one run. The journal is
  appended to, and where two of its records start from one text the first one's result wins.
- `_plain_safe` lets an alias end in a colon, which a flow list reads as a key; the check on the written
  note then refuses it.
- The task number has three digits by format only: the task after 999 is `1000-…`, which no lookup reads
  as a task, and so is every one after it.
- "Both forms find it": a verb slug that itself looks like a task name is lost to a directory of that
  very name, placed later; a name that ends in `.md` is not found as it is written.
- A closed task's directory is said to move whole. The mover moves file by file and may stop for a night
  in between; if the plan has moved by then, a marker bound to the task is refused.
- The gate promises that every stamp resolves cleanly; it compares spellings where the resolver compares
  stripped paths.
- `cmd_set_memory_root` judges absoluteness before backslashes become slashes.

## Model

| member | source | states |
|---|---|---|
| `Kahn.BuildGraph` | scripts/merge_order.py:93-103 | the two dictionaries count and list the in-set dependencies, each as often as it is written for each time its plan is listed, self-dependencies included, missing plans ignored |
| `Kahn.Release` | scripts/merge_order.py:112-116 | one decrement per occurrence keeps "in-degree = occurrences still pending" and leaves the queue the sorted list of exactly the ready plans |
| `Kahn.TopoSort` | scripts/merge_order.py:85-122 | returns exactly when slugs are distinct and the induced graph is acyclic; then a topological order, and the lexicographically least of all of them; otherwise the sorted largest set of mutually waiting plans |
| `DependencyGraph.StuckHasCycle` | scripts/merge_order.py:118-120 | plans that all wait for each other contain a closed dependency walk, so the error is never raised for an acyclic set |
| `DependencyGraph.CycleExcludesOrder` | scripts/merge_order.py:118-120 | a finished set with a cycle has no order that puts every dependency first |
| `DependencyGraph.GreedyIsLeast` | scripts/merge_order.py:105-116 | taking the smallest ready slug each time gives the lexicographically least topological order |
| `DependencyGraph.ListLeMeans` | scripts/merge_order.py:105-116 | "lexicographically" means: a proper prefix first, else by the slugs at the first difference |
| `Sorting.StrLeMeans` | scripts/merge_order.py:105-116 | and two slugs compare by the smaller character at their first difference |
| `MergeOrder.Levels` | scripts/merge_order.py:153-161 | every level is the length of the longest in-set dependency chain that ends in the plan |
| `MergeOrder.DependencyIsLower` | scripts/merge_order.py:153-161 | a dependency sits on a strictly lower level than the plan that needs it |
| `MergeOrder.LevelsAscend` | scripts/merge_order.py:172-179 | a lower level goes before a higher one |
| `MergeOrder.DependsOnIs` | scripts/merge_order.py:145-147 | what the dictionaries make of the plans: a dependency is one that the last plan to land with that slug names and that is to land itself |
| `MergeOrder.BuildMergeOrder` | scripts/merge_order.py:125-179 | told from the plans' fields: an order exactly when no two plans to land (not closed, with tasks, all of them done) share a slug and none needs itself in a circle; then each of them once, by longest chain, known size, slug, every dependency first; else the sorted slugs of all that wait for each other |
| `MergeOrder.RecommendedIsTopological` | scripts/merge_order.py:172-179 | re-sorting by `(level, size or fallback, slug)` never moves a plan in front of its dependency |
| `MergeOrder.RecommendedUnique` | scripts/merge_order.py:172-179 | the recommended order is determined by the plans, their dependencies and sizes alone |
| `MergeOrder.InputOrderIrrelevant` | scripts/merge_order.py:134-179 | listing the plans in any order, among any unfinished ones, gives the same recommendation |
| `MergeOrder.TieBreak` | scripts/merge_order.py:14-22 | on one level a known diff goes before an unknown one, the smaller known diff first, then the slug |
| `TaskNames.NameReadsBack` | scripts/harness_memory.py:1363 | a name written as number, dash, slug is read as that task exactly while the number is below 1000 |
| `TaskNames.NumberWritten` | scripts/harness_memory.py:1511-1519 | every number is written in decimal, with zeros in front up to three digits |
| `TaskNames.TaskDirIs` | scripts/harness_memory.py:1363 | exactly which names are read as which task: three digits, a dash, a slug of one line, a final line break or not |
| `TaskNames.SafeIs` | scripts/harness_memory.py:1323-1335 | a safe name is exactly one without a separator, a colon, a NUL or an upward step, so it is a single path component |
| `TaskNames.NeverAmbiguous` | scripts/harness_memory.py:1448-1481 | with distinct numbers and verb slugs no name matches two tasks |
| `TaskNames.PlacementKeepsUnique` | scripts/harness_memory.py:1511-1561 | a new name shares neither number nor verb slug with any task, at any highest number; it is itself read as a task exactly when it was typed with its number or follows a number below 999 |
| `TaskNames.ThousandIsInvisible` | scripts/harness_memory.py:1511-1519 | at 999 the next name is not read as a task, its verb slug finds nothing, placing the slug again answers the directory already there, and every other slug placed after it gets the number 1000 too |
| `TaskNames.TwoPlacementsCollide` | scripts/harness_memory.py:1534-1550 | two placements composed before either directory is made take one number, so placing has to be serial |
| `TaskNames.CapturableIs` | scripts/harness_memory.py:1448-1459 | exactly when a numbered-looking slug can still become a directory of its own: its number is above every task's, and what stands behind it is a slug without a number that finds nothing |
| `TaskNames.OwnNameFinds` | scripts/harness_memory.py:1305-1320 | a task's directory name, typed as it is, finds that directory exactly when it does not end in a blank or in `.md` |
| `TaskNames.FileNameNormal` | scripts/harness_memory.py:1305-1320 | written `PLAN-<name>.md`, every name is normalised to itself |
| `TaskNames.FourSpellings` | scripts/harness_memory.py:1305-1320 | the slug, both stems and the file name all name one plan |
| `TaskNames.BareNames` | scripts/harness_memory.py:1305-1320 | exactly the eight spellings that count as a bare call |
| `TaskStore.Store.TaskDirNames` | scripts/harness_memory.py:1425-1434 | the sorted names of all safe directories, open and completed, each once |
| `TaskStore.Store.MatchTaskDirs` | scripts/harness_memory.py:1448-1459 | an exact name alone, else exactly the directories with that verb slug |
| `TaskStore.Store.NextTaskNumber` | scripts/harness_memory.py:1511-1519 | one past the highest number any task carries, as three digits |
| `TaskStore.Store.PlacedTask` | scripts/harness_memory.py:1534-1561 | reuses the one directory the name finds, refuses a numbered name that shares, else composes the next name |
| `TaskStore.Store.ResolveActivePlan` | scripts/harness_memory.py:1564-1657 | the answer to a raw name, a marker or a bare call, by that precedence, with every error, with tasks and without a vault; a name is refused as unsafe exactly when it could leave its directory, such a marker dangles, and every place answered is a single path component |
| `TaskStore.Store.MoveFolder` | daemon/internal/dreaming/taskmover.go:662-685 | which files of a folder have moved after a pass, given what each commit answers: the tracker only behind all others, and the directory goes exactly when all moved and nothing is left in it |
| `TaskRuns.NamesStayUnique` | scripts/harness_memory.py:1425-1434 | in every run of placing, writing and moving file by file, at any number of tasks, no two task directories share a number or a verb slug |
| `TaskRuns.PlacedIsFound` | scripts/harness_memory.py:1534-1561 | a call repeated after the directory is made answers the same task in the same folder; the lookup finds it exactly when it was there before, was typed with its number, or got one of three digits |
| `TaskRuns.DirectoryNameIsStable` | scripts/harness_memory.py:1437-1486 | a task's normalised directory name leads to that task at every later point of every run: before, during and after its move |
| `TaskRuns.VerbSlugIsStable` | scripts/harness_memory.py:1448-1481 | a verb slug finds its task through every run that may follow exactly when it is no other directory's name and can no longer be composed as one |
| `TaskRuns.AmbiguityUnreachable` | scripts/harness_memory.py:1462-1481 | "two tasks share the slug" is never an answer in any run |
| `TaskRuns.MarkerStaysBound` | scripts/harness_memory.py:1619-1637 | a worktree bound to a task with a plan is bound to it at every later point, except exactly while the plan is under `completed/tasks/` and the directory still under `tasks/` too; then it is an error |
| `TaskRuns.WindowOpensAndCloses` | daemon/internal/dreaming/taskmover.go:662-685 | that state is entered by nothing but the move of an open task's plan, and left by nothing but the removal of the directory or a plan written for the task again |
| `TaskRuns.PassIsRun` | daemon/internal/dreaming/taskmover.go:662-685 | one pass over a folder is such a run, so the results above hold across any number of passes |
| `TaskRuns.CutOffPassIsRun` | daemon/internal/dreaming/taskmover.go:662-685 | so is a pass that an error cuts off behind any of its files |
| `TaskRuns.PassBindsMarker` | daemon/internal/dreaming/taskmover.go:662-685 | a pass leaves the marker of an open task with a plan dangling exactly when it moved the plan and another file was refused or left over |
| `CasWriter.VaultFile.SafeWriteReplaceStyle` | scripts/harness_memory.py:1762-1788 | refuses without a trace or replaces the content; for each of the three modes, exactly when it is accepted, and which of the two errors it gives |
| `CasWriter.RunSafe` | scripts/harness_memory.py:1756-1761 | for any number of writers and any interleaving under the mutex, a passed comparison stays true until its write, and the mutex is held exactly by the one writer between taking it and writing or giving up |
| `CasWriter.OnlyUncheckedWritesLose` | scripts/harness_memory.py:1741-1750 | under the mutex a write replaces something its writer had not read exactly when the writer had found no file and one was there |
| `CasWriter.NoUpdateLost` | scripts/harness_memory.py:1756-1761 | on an existing file the successful writes form one chain, each computed from what the one before left |
| `CasWriter.WindowWithoutMutex` | scripts/harness_memory.py:1756-1758 | without the mutex a run exists in which an update is lost between compare and write |
| `CasWriter.WindowOnCreation` | scripts/harness_memory.py:1746-1750 | with the mutex, two writers that both found no file lose the first creation |
| `ManagedSection.SectionSearchComplete` | scripts/merge-managed-section.py:67-74 | looking only at the first BEGIN finds a section whenever some BEGIN has an END behind it |
| `ManagedSection.SectionMeans` | scripts/merge-managed-section.py:67-74 | the section of any text: from the first BEGIN to the first END behind it, and the line break after that if there is one |
| `ManagedSection.BuiltBlock` | scripts/merge-managed-section.py:58-64 | a built block opens with BEGIN, and its first END is its own exactly when the body brings none |
| `ManagedSection.BlockSpelled` | scripts/merge-managed-section.py:58-64 | the block letter by letter, with the body trimmed |
| `ManagedSection.MergeIdempotent` | scripts/merge-managed-section.py:77-94 | a second merge is a no-op exactly when the body has no END and the target had no BEGIN without an END |
| `ManagedSection.OrphanBreaks` | scripts/merge-managed-section.py:67-94 | with a BEGIN that no END follows, the first merge appends and the second puts the block where that BEGIN stood, so that all text behind it is gone |
| `ManagedSection.OutsidePreserved` | scripts/merge-managed-section.py:77-94 | one merge, whatever the target: the block replaces the section, or follows the old text and just as many newlines as make a blank line, all else unchanged; the next search takes the block for the section exactly when the body has no END and no BEGIN without an END stands in front |
| `ManagedSection.BlankTargetIsDropped` | scripts/merge-managed-section.py:86-94 | a target of blanks only is replaced by the block, the one case where old text goes |
| `PayloadRender.HeaderDropped` | scripts/payload_render.py:47-62 | a leading comment that is no payload marker goes, with the blanks behind it, up to its first closing |
| `PayloadRender.PayloadMarkerIs` | scripts/payload_render.py:47-51 | which comments are payload markers: blanks, a slash or not, and the word |
| `PayloadRender.OtherTextKept` | scripts/payload_render.py:47-62 | without a comment in front, with an open one, or with a payload marker, nothing is dropped |
| `PayloadRender.CollapseKeepsText` | scripts/payload_render.py:61 | collapsing blank runs takes nothing but newlines out |
| `PayloadRender.CollapseRun` | scripts/payload_render.py:61 | a run of any number of newlines becomes two at most, every other character stays |
| `PayloadRender.CollapseFixpoint` | scripts/payload_render.py:61 | a text without two blank lines in a row passes the blank-run collapse unchanged |
| `PayloadRender.RenderOfTidyTemplate` | scripts/payload_render.py:58-62 | a header comment over a tidy body renders to that body and one newline |
| `PayloadRender.RenderShape` | scripts/payload_render.py:58-62 | a rendered body has no two blank lines in a row, no newline in front and exactly one at the end |
| `PayloadRender.ExtractAfterMerge` | scripts/payload_render.py:79-88 | for every target, what is read back from the merged file: the block's text up to its first END, or, behind a BEGIN without END that a comment's end follows, everything from there on |
| `PayloadRender.ReadHasNoEnd` | scripts/payload_render.py:79-88 | what is read back never holds an END, whatever the text |
| `PayloadRender.ReadSectionIs` | scripts/payload_render.py:79-88 | what is read out of any text, hand-edited or not, or that nothing is |
| `PayloadRender.ParityHolds` | scripts/payload_render.py:79-88 | for every target and body, the merged file gives the body back exactly when the body has no END, is a trimmed text plus one newline, and the target had no BEGIN without END that a comment's end follows |
| `PayloadRender.RenderedParity` | scripts/payload_render.py:58-62 | for a rendered body the second condition means no blank at either end besides the newline |
| `PayloadRender.RuleRoundTrip` | scripts/payload_render.py:65-76 | stripping the rule's frontmatter gives the body back exactly when the body does not start with a blank |
| `PayloadRender.RuleSpelled` | scripts/payload_render.py:65-72 | the rule letter by letter |
| `PayloadRender.NoBlockKept` | scripts/payload_render.py:71-76 | a text without a closed block in front is left alone |
| `PayloadRender.BlockStripped` | scripts/payload_render.py:75-76 | a closed block comes off up to its first closing, an empty one included |
| `PayloadRender.RuleMergesLikeBody` | scripts/merge-managed-section.py:53-64 | merging the tracked rule with its frontmatter stripped writes the block of the body itself |
| `AliasText.InsertedIsFirst` | scripts/alias_backfill.py:836 | in a note without the key, the first newline-plus-line is the inserted one |
| `AliasText.FrontIsFramed` | scripts/alias_backfill.py:68 | a block is found exactly in a text that has an opening and a closing fence, and it is the shortest behind that opening |
| `AliasText.HasKeyIs` | scripts/alias_backfill.py:69 | the key counts exactly at the beginning of a line |
| `AliasText.InsertedFront` | scripts/alias_backfill.py:565-583 | the frontmatter of the new text is the old head plus exactly that line |
| `AliasText.CreatedFront` | scripts/alias_backfill.py:586-601 | a created block holds the line and nothing else |
| `AliasText.EditUndo` | scripts/alias_backfill.py:832-836 | undoing an insert or a create restores every byte |
| `AliasText.EditOnce` | scripts/alias_backfill.py:573-595 | a written note refuses any second edit, insert or create |
| `AliasJournal.RedoIs` | scripts/alias_backfill.py:889-893 | redoing, for any text: the edit itself, or the block put in front unasked |
| `AliasJournal.UndoIs` | scripts/alias_backfill.py:831-836 | undoing, for any text: the first such line goes, or the block in front, or nothing |
| `AliasLine.RenderRoundTrip` | scripts/alias_backfill.py:548-562 | a strict reader of the plain and the double-quoted flow list (YAML 1.2.2, sections 7.3.1, 7.3.3 and 7.4.1) gets the list back exactly when it is quoted or no alias ends in a blank or a colon |
| `AliasLine.PlainFormIs` | scripts/alias_backfill.py:548-562 | the plain form is chosen exactly when every alias starts with a letter or digit and holds no structure and no colon with a blank |
| `AliasLine.RenderIsOneLine` | scripts/alias_backfill.py:552-562 | aliases without line breaks render to one line that starts with the key |
| `AliasJournal.Vault.Run` | scripts/alias_backfill.py:752-788 | the write loop: files and journal after it, refused edits and a vanished note included |
| `AliasJournal.RunWrites` | scripts/alias_backfill.py:752-788 | item by item, for every run and dry run: a note is written exactly when the item has aliases for it, the edit applies and the block of the edited note passes the YAML check, and then holds exactly the edited text; the run ends behind its list or in front of the first note that is gone |
| `AliasJournal.Vault.RevertJournal` | scripts/alias_backfill.py:817-843 | the revert loop, its counters and its dry run |
| `AliasJournal.Vault.ReapplyJournal` | scripts/alias_backfill.py:874-900 | the reapply loop, its counters and the uncaught refusal of an insert |
| `AliasJournal.RunJournal` | scripts/alias_backfill.py:752-788 | one run writes no note twice and records true before- and after-images, also if a note is listed twice |
| `AliasJournal.ReplayAll` | scripts/alias_backfill.py:809-900 | for the journal of any number of runs and any vault: each note equal to an image becomes the other image of the first record that has it, all else stays, "would not restore cleanly" and the uncaught refusal never happen |
| `AliasJournal.ReplayCounts` | scripts/alias_backfill.py:817-900 | the counters say of each record what its note was found to be at that moment |
| `AliasJournal.CountsAddUp` | scripts/alias_backfill.py:817-900 | "done" is the number of notes rewritten, and every record of a write falls under one counter |
| `AliasJournal.RevertUndoesRun` | scripts/alias_backfill.py:809-843 | reverting the vault as the run left it gives back the vault as the run found it |
| `AliasJournal.RevertThenReapply` | scripts/alias_backfill.py:850-900 | with the journal of any number of runs and any user edits before it: what every note is after revert and reapply, and that it is as it was exactly when it was no image at all or the first record that starts from what revert restored ends in it |
| `AliasJournal.RestoresAllIff` | scripts/alias_backfill.py:850-900 | a journal restores every untouched note of every vault exactly when each of its records is brought back in this sense |
| `AliasJournal.DistinctStartsRestore` | scripts/alias_backfill.py:850-900 | it does if no two writes of one note start from one text and end in different ones |
| `AliasJournal.OneRunComesBack` | scripts/alias_backfill.py:850-855 | the journal of one run does, and every note equal to either image ends as its after-image |
| `AliasJournal.TwoRunJournalRestoresTheFirst` | scripts/alias_backfill.py:749 | the journal of two runs over one text does not: the first run's text comes back |
| `AliasJournal.DryRunKeepsFiles` | scripts/alias_backfill.py:840-841 | a dry run of either replay touches nothing |
| `AliasJournal.ReapplyCarriesOutDryRun` | scripts/alias_backfill.py:782-787 | reapplying a dry run's journal writes what the run would have written |
| `VaultWalk.IterNotes` | scripts/check-vault-frontmatter.py:396-416 | the walk: own notes in order, then the entered subdirectories in order |
| `VaultWalk.InScanLoop` | scripts/check-vault-frontmatter.py:419-431 | the ancestor loop decides that no ancestor is a dot directory or walled, and the note is Markdown outside the wall |
| `VaultWalk.VaultWalkIsInScan` | scripts/check-vault-frontmatter.py:396-431 | for every tree, wall and path, the walk from the vault yields the path exactly when it is a file there and the predicate accepts it |
| `VaultWalk.WalkMatchesInScan` | scripts/check-vault-frontmatter.py:396-431 | the same for a walk rooted anywhere below, if the root's own path passes |
| `VaultWalk.WalkOnce` | scripts/check-vault-frontmatter.py:396-416 | no note is yielded twice |
| `TypeCollapse.PlanNote` | scripts/migrate_type_collapse.py:127-211 | the plan from the first `type`, `kind` and `status` lines in front of the fence, or why the note is refused; the two rows below say what that plan is |
| `TypeCollapse.RefusedExactly` | scripts/migrate_type_collapse.py:172-199 | a note is refused exactly when it has both fields, or when its value, under the name the contract maps it to, is in neither register |
| `TypeCollapse.WhatIsWritten` | scripts/migrate_type_collapse.py:184-211 | what the applied note reads: the mapped value, as `type` if it is a memory type and else as `kind`, on the same line, and the new status |
| `TypeCollapse.ParseLineIs` | scripts/migrate_type_collapse.py:127-144 | exactly which lines carry a field, and which |
| `TypeCollapse.FenceIs` | scripts/migrate_type_collapse.py:127-144 | exactly which lines are fences |
| `TypeCollapse.RewriteIs` | scripts/migrate_type_collapse.py:147-156 | a rewritten line is the new key, the blanks of the old line, the new value and nothing else |
| `TypeCollapse.RewriteParses` | scripts/migrate_type_collapse.py:147-156 | a rewritten line reads back as the new field with the new value, and is one line and no fence |
| `TypeCollapse.NoteFile.ApplyNote` | scripts/migrate_type_collapse.py:235-244 | all planned lines are replaced, or nothing if one of them changed under the plan |
| `TypeCollapse.ReplanAfterApply` | scripts/migrate_type_collapse.py:159-244 | applying keeps the line count and every unplanned line; a second plan is empty exactly when the replacement is not itself retired and a renamed field is not repeated, and refuses the note exactly when it is |
| `TypeCollapse.ApplyThenReplan` | scripts/migrate_type_collapse.py:159-244 | the same for the file's text, split and joined |
| `TypeCollapse.NothingToDoIsCollapsed` | scripts/migrate_type_collapse.py:4-21 | an empty plan means one vocabulary field, a memory type under `type`, a record kind under `kind`, no retired status |
| `TypeCollapse.SettledByRules` | scripts/migrate_type_collapse.py:36-37 | rules whose results are not retired themselves settle every note that carries its vocabulary field once, overlapping registers or not |
| `TypeCollapse.FieldLinesInsideBlock` | scripts/migrate_type_collapse.py:127-144 | exactly the first line of each key in front of the closing fence is ever planned |
| `TypeCollapse.UnclosedBodyIsEdited` | scripts/migrate_type_collapse.py:133-144 | in any note without a closing fence that is not refused, the first status line is edited if it is retired, however far down in the body |
| `Governs.PathPrefixIsComponents` | scripts/governs_resolver.py:237-240 | a pattern matches by whole path components |
| `Governs.NormOf` | scripts/governs_resolver.py:233-234 | blanks, then slashes are taken off both ends |
| `Governs.SpecificityIs` | scripts/governs_resolver.py:225-247 | what every pattern scores, globs included, in terms of `fnmatch` |
| `Governs.ResolveGoverningDesign` | scripts/governs_resolver.py:250-299 | area name first, then the one owner of the most specific matches, else greenfield or overlap; the owner answered is the design and area of an entry |
| `Governs.ResolutionUnique` | scripts/governs_resolver.py:250-299 | the answer depends on the set of entries only |
| `Governs.LongestPrefixMatch` | scripts/governs_resolver.py:280-296 | without globs: longest-path-prefix match, overlap exactly when the longest owning path has two owners |
| `Governs.FindOverlaps` | scripts/check-governs-index.py:58-67 | exactly the nonempty patterns stamped by more than one design, with those designs |
| `Governs.OverlapIsSamePath` | scripts/governs_resolver.py:250-299 | for glob-free patterns spelled in any way: some target resolves to overlap exactly when two designs are on one path, that is one nonempty stripped pattern without a backslash |
| `Governs.GateMatchesResolver` | scripts/check-governs-index.py:6-15 | the gate is wrong in exactly two ways: it passes an index whose only shared paths are spelled differently, and refuses one whose shared spellings are on no path; for tidy patterns it is right |
| `Governs.UntidyPatternsSlipThrough` | scripts/check-governs-index.py:63-67 | for instance `p` and `p/` from two designs pass the gate, and a target below overlaps in the resolver |
| `VersionMatch.PadLoop` | scripts/capability_version_match.py:50-53 | the result has the asked-for length or more, starts with the parts and goes on with zeros, so it is the same version |
| `VersionMatch.SatisfiesIsInRange` | scripts/capability_version_match.py:95-128 | each operator computes its meaning on versions with endless trailing zeros; `~= V.N` means `>= V.N, == V.*` (PEP 440, section "Compatible release") |
| `VersionMatch.CompatibleIsPrefix` | scripts/capability_version_match.py:95-109 | `~=` accepts exactly what is not below the version and has all its parts but the last, and nothing if it has fewer than two parts |
| `VersionMatch.OneAnswerHolds` | scripts/capability_version_match.py:111-126 | of the answers to `<`, `==`, `>` exactly one is yes, whatever the lengths, `<=`, `>=`, `!=` follow from them, and swapping the sides turns `<` into `>` |
| `VersionMatch.AnswersTransitive` | scripts/capability_version_match.py:111-126 | the answers to `<` and to `<=` are transitive |
| `VersionMatch.InstalledZerosIrrelevant` | scripts/capability_version_match.py:95-128 | installed versions equal up to trailing zeros satisfy the same ranges |
| `VersionMatch.RequiredZerosIrrelevant` | scripts/capability_version_match.py:95-128 | for every operator, exactly when two declared versions equal up to trailing zeros accept the same installed ones: always, except that behind `~=` they need equally many parts |
| `VersionMatch.SatisfiesMeaning` | scripts/capability_version_match.py:34-128 | end to end on strings: parsing a written version and range and comparing gives the meaning |
| `VersionMatch.ParseVersionIs` | scripts/capability_version_match.py:34-47 | exactly which strings are versions, and which version |
| `VersionMatch.SatisfiesIff` | scripts/capability_version_match.py:34-128 | end to end for any two strings: yes exactly when one holds a version, the other a range, and the version is in it |
| `MemoryRoot.Config.CmdSetMemoryRoot` | scripts/agentm_config.py:238-279 | refuses with no change or stores the normalised value |
| `MemoryRoot.AcceptedIs` | scripts/agentm_config.py:254-271 | exactly which values are taken, and what is stored: a nonempty prefix between blanks and slashes, without colon or upward component, not written with a slash in front |
| `MemoryRoot.ReadIs` | scripts/harness_memory.py:332-368 | exactly which stored values are read, and as what: the same without a slash or backslash in front |
| `MemoryRoot.ReadersAgree` | scripts/alias_backfill.py:205-220 | for every stored value what either reader gives, and that they agree exactly when there is no empty component or nothing but empty and "." ones |
| `MemoryRoot.VaultRootBack` | scripts/harness_memory.py:227-244 | for every stored value the vault root comes back exactly when no component is empty or ".", or all are |
| `MemoryRoot.KeptConcat` | scripts/harness_memory.py:356-368 | joining drops exactly the empty and "." components and keeps the order |
| `MemoryRoot.RootIsKept` | scripts/harness_memory.py:227-244 | for any root, deriving takes exactly the stored components off its end and never all of it |
| `MemoryRoot.StaysInVault` | scripts/harness_memory.py:356-368 | both readers stay below the vault, with no upward component |
| `MemoryRoot.StoredIsRead` | scripts/agentm_config.py:254-276 | what the setter stored is what the reader reads exactly when stripping its slashes left no blank at an end |
| `MemoryRoot.AcceptedValueWorks` | scripts/agentm_config.py:254-276 | an accepted value is read as the directory it spells exactly when its components are all names and no blank is at an end; then both readers agree on it, it lies in the vault, and leads back to it |
| `MemoryRoot.DoubledSlashSplits` | scripts/agentm_config.py:254-276 | `a//b` is accepted and splits the readers |
| `MemoryRoot.LeadingBackslashIsIgnored` | scripts/agentm_config.py:254-271 | an accepted value that both readers then ignore |
| `Text.SpaceTable` | scripts/capability_version_match.py:43 | the characters that stripping takes off, one by one |

## Left out

- Reading and writing files, newline translation, permissions, argument parsing, printing and the JSON of journal and config: the disk is a map, a set or a field.
- Git, `agentmd` and model calls: their answers are inputs (a diff size per slug, the work list of the backfill, the corpus gate taken as open).
- MergeOrder.BuildMergeOrder: the reason text of each entry and the parsing of `git diff --stat` are not modelled; a slug missing from `sizes` is the fallback.
- TaskStore.Store.MoveFolder: which folders are due, the link repair and the journal's own records are not modelled; what a commit answers (a changed file, a taken destination) is an input.
- TaskNames.PlacementKeepsUnique: typed slugs have no line break, and digits are ASCII, where `\d` also accepts other scripts' digits.
- TaskRuns.NamesStayUnique: placing a name and making its directory are one step, since the lemma on two placements shows that they have to be; directories made outside these operations are not modelled.
- CasWriter.NoUpdateLost: the mutex is abstract; takeover of a stale lock, heartbeats and the temporary file of the atomic write are not modelled, and the mtime mode only in the single call.
- ManagedSection.MergeIdempotent: a marker is a token without line break and without `<`, as the default marker is.
- AliasJournal.RunJournal: journal records hold the two texts where the source holds their SHA-256, which is taken as collision-free; aliases have no line breaks, as the cleaning step ensures; the YAML check of a written note is a parameter.
- AliasLine.RenderRoundTrip: the reader knows the two rendered forms, not YAML's typing of plain scalars such as `true` or a number.
- VaultWalk.VaultWalkIsInScan: the wall is any predicate on paths, not the contract's area list; symbolic links are not modelled.
- TypeCollapse.ReplanAfterApply: register entries are trimmed nonempty words on one line.
- Governs.LongestPrefixMatch: patterns with glob characters go through `fnmatch`, which is a parameter; parsing the designs' frontmatter into entries is not modelled.
- VersionMatch.SatisfiesMeaning: digits are ASCII.
- MemoryRoot.ReadersAgree: the `MEMORY_ROOT` export, which bypasses the key, and home-directory expansion are not modelled.
- The checks that are fixed lists or single decisions (the other `check-*` gates, backend selection, the boolean setters, `find_unknown_areas`, `designs_in`) are not modelled: they would only add easy members.
