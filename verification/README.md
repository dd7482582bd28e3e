# qg-react-install: dependency reconciliation and link registry

This project is a Dafny model of the pure logic inside the two installers of
qg-react-install. The tool copies shared UI artifacts from a central git
checkout into a consumer project. Those artifacts are components and
utilities (`ComRunner`) and page blocks (`BlockRunner`). Once the git, npm and
filesystem calls are taken away, the remaining logic is this:

- **Dependency reconciliation.** `_install` walks the artifact's declared
  dependencies in key order. It sorts each key into one of four outcomes:
  - *satisfied*: the project has it at a version that is not lower;
  - *update*: a public package the project has at a lower version;
  - *install*: a public package the project lacks;
  - *internal*: a `@qg-` artifact that needs a recursive install.

  The project map it compares against is a merge of several sources, with
  later sources taking precedence. Both versions have their carets deleted
  before the comparison. The install and update lists become one
  `npm install -S` call. Each internal name goes to a child runner with an
  inherited overwrite flag.
- **Link registry.** This maps each artifact name to the set of project paths
  that use it. `exec` links the current project to every queued install. It
  unlinks the project from the unlink list, and drops an entry once its set
  is empty.
- **Builder and exec decisions.** These cover the chained builder calls, the
  rule that skips an artifact when a same-named file is already in the way,
  the choice of sync targets, and the automatic commit message.

Modules:
- `Versions` (caret deletion, abstract comparator);
- `Packages` (artifacts, in-project version map, lookup);
- `Dependencies` (the classification loop and npm arguments);
- `Links` (the registry);
- `Builders` (builder state, child builder, commit message);
- `Execution` (exec stages shared by both runners);
- `ComRunner` and `BlockRunner` (per-runner paths, merges and dispatch).

External collaborators appear as parameters:
- the `compare-versions` library is `cmp: (string, string) -> int`. Negative
  means "lower". No semver semantics are assumed.
- `fse.pathExists` is `pathExists: string -> bool`, over paths relative to the
  project root.
- `changeCase.pascalCase` is `pascal: string -> string`.

The declared dependency map is a sequence of `Pin(name, version)` in
`Object.keys` order. `projectDeps[key]` being truthy is modelled as "present
with a non-empty version".

Every builder call returns the runner for chaining, except `overwrite()`,
which returns nothing (src/ComRunner/index.ts:353-355,
src/BlockRunner/index.ts:311-313). A chain that continues after it throws.
Every caller in the repository calls it as a plain statement. The model's
setters are plain functions, so this difference is not represented.

## Model

| member | source | states |
|---|---|---|
| Versions.StripCarets | src/ComRunner/index.ts:431-432 | the result contains no `^`, and every other character occurs exactly as often as in the input |
| Versions.StripCaretsIdempotent | src/ComRunner/index.ts:438-452 | stripping the carets of a version already pushed caret-free onto an npm list changes nothing |
| Versions.CaretRangeStripsToVersion | src/ComRunner/index.ts:132 | the `^` prefixed to an in-project version is deleted again before comparison |
| Packages.VersionMap | src/ComRunner/index.ts:126-136 | the in-project map has exactly the artifact names as keys; each maps to `^` + the version of the last artifact with that name |
| Packages.Find | src/ComRunner/index.ts:503-505 | returns the first artifact with the name, which is in the list; returns None exactly when no artifact has the name |
| Dependencies.Select | src/ComRunner/index.ts:425-455 | the entries of one outcome: every listed entry is declared and has that outcome, and every declared entry with that outcome is listed |
| Dependencies.AnalyseDependencies | src/ComRunner/index.ts:422-457 | the loop, visiting each key once in order, produces exactly the three outcome-filtered lists of the reference classification |
| Dependencies.Visit | src/ComRunner/index.ts:428-453 | one visit appends the key to exactly the list its reference outcome names (the caret-free version for npm lists, the bare name for internal ones) and leaves the other lists as they were |
| Dependencies.ClassifyAppend | src/ComRunner/index.ts:425-455 | classifying a concatenation concatenates the classifications, so each list keeps key order and each key is decided on its own |
| Dependencies.ClassifyCoversEveryKey | src/ComRunner/index.ts:425-455 | the three lists plus the satisfied keys have exactly as many entries as there are declared keys |
| Dependencies.ClassifyMembership | src/ComRunner/index.ts:425-455 | with unique keys, a key is in the internal, install or update list if and only if its outcome is that one, so it is in at most one list |
| Dependencies.ClassifyByCase | src/ComRunner/index.ts:428-453 | with unique keys, a key is internal if and only if it is `@qg-`-prefixed and lacking or lower; installed if and only if public and lacking; updated if and only if public and lower |
| Dependencies.AbsentKey | src/ComRunner/index.ts:444-453 | an absent or empty key goes to the internal list if `@qg-`-prefixed, else to the install list with its caret-free version |
| Dependencies.OutdatedKey | src/ComRunner/index.ts:428-442 | a key whose caret-free project version compares lower goes to the internal list if `@qg-`-prefixed, else to the update list with its caret-free version |
| Dependencies.SatisfiedKey | src/ComRunner/index.ts:428-443 | a present key that is not lower ends up in none of the three lists |
| Dependencies.ClassifySeparatesInternal | src/ComRunner/index.ts:435-451 | the internal list holds only `@qg-` names; install and update hold only public names, absent and present respectively |
| Dependencies.NpmArgs | src/ComRunner/index.ts:478-483 | npm runs if and only if install or update is non-empty; its arguments are `install -S`, then each install entry, then each update entry, as `name@version` |
| Dependencies.SameVersionIsSatisfied | src/ComRunner/index.ts:428-434 | a present key at the same caret-free version is satisfied for any comparator that finds a version not lower than itself |
| Links.Link | src/ComRunner/index.ts:261-273 | every linked name's set is its earlier set plus the project; entries are created as needed; other entries are untouched; no empty entry appears |
| Links.Unlink | src/ComRunner/index.ts:277-289 | removes the project from each named entry and deletes an entry whose only project it was; creates no key; untouched names keep their entries; no empty entry appears |
| Links.UnlinkRemovesProject | src/ComRunner/index.ts:280-284 | after unlinking, the project is in no unlinked name's set |
| Links.UnlinkUndoesLink | src/BlockRunner/index.ts:219-250 | on a registry without empty entries, unlinking names just linked for a new project gives back the registry it started from |
| Links.LinkIdempotent | src/BlockRunner/index.ts:219-231 | linking the same names twice gives the same registry as linking once |
| Links.UnlinkIdempotent | src/BlockRunner/index.ts:235-247 | unlinking the same names twice gives the same registry as unlinking once |
| Builders.WithInstall | src/ComRunner/index.ts:305-315 | the install list becomes the earlier list followed by the new items; every other builder field is unchanged |
| Builders.WithSync | src/ComRunner/index.ts:317-327 | the sync list becomes the earlier list followed by the new items; every other field is unchanged |
| Builders.WithUnlink | src/ComRunner/index.ts:334-344 | the unlink list becomes the earlier list followed by the new items; every other field is unchanged |
| Builders.WithInstallTwice | src/BlockRunner/index.ts:263-273 | two install calls append the same as one call with both lists, in call order |
| Builders.WithSave | src/ComRunner/index.ts:300-303 | `save()` switches the save flag on and changes no other field |
| Builders.WithLink | src/ComRunner/index.ts:329-332 | `link()` switches the link flag on and changes no other field |
| Builders.WithOverwrite | src/ComRunner/index.ts:353-355 | `overwrite()` switches the overwrite flag on and changes no other field |
| Builders.WithCommit | src/ComRunner/index.ts:346-351 | `commit(message)` records a commit request carrying exactly that message and changes no other field |
| Builders.WithCommitLastWins | src/BlockRunner/index.ts:304-309 | a later `commit` call replaces the earlier request, so only its message is kept |
| Builders.FlagSettersCommute | src/BlockRunner/index.ts:258-313 | the flag setters are idempotent and may be called in any order |
| Builders.ChildBuilder | src/BlockRunner/index.ts:475-479 | the child builder installs only the target; it has overwrite if and only if the parent does; it never links, saves, syncs, unlinks or commits |
| Builders.CommitMessage | src/ComRunner/index.ts:559-572 | a message exists if and only if a commit was requested; it is the user's message when that is non-empty, and otherwise a `chore(<scope>): ` line ending in the artifact name |
| Execution.Where | src/ComRunner/index.ts:121-123 | the kept items are exactly the given items that satisfy the predicate, each kept as often as it was given and dropped entirely otherwise |
| Execution.WhereAppend | src/ComRunner/index.ts:121-123 | filtering a concatenation filters each part and concatenates the results, so the filter keeps the given order |
| Execution.Installed | src/BlockRunner/index.ts:154-197 | `_install` is due for exactly the queued artifacts that pass the runner's same-named-file decision, as often as they were queued, and for none when nothing was queued |
| Execution.Attempted | src/ComRunner/index.ts:178-236 | the `_install` calls made are a prefix of the due ones; all but the last return; the last throws if and only if some due call throws; with no throw every due call is made |
| Execution.LinkStages | src/ComRunner/index.ts:261-292 | a linked name that is not unlinked maps to its old projects plus this one; an unlinked name maps to its projects after linking minus this one, and has no entry when that leaves none; every other entry is untouched; no empty entry appears |
| Execution.ExecRegistry | src/ComRunner/index.ts:172-292 | when an `_install` throws, exec rejects before linking and the registry is unchanged; otherwise a linked name that is not unlinked maps to its old projects plus this one, an unlinked name loses this project, keeps the others it had after linking, and has no entry exactly when none remain; every other entry is untouched and no other key appears; no empty entry appears |
| Execution.UnlinkKeepsOtherProjects | src/ComRunner/index.ts:277-289 | unlinking `p` from an artifact `x` linked to `p` and `q` leaves `x` linked to `q` alone |
| Execution.SkippedInstallIsLinked | src/ComRunner/index.ts:225-292 | an install skipped for a same-named file does not reach `_install`, yet it is still linked when no other `_install` throws |
| Execution.SyncList | src/ComRunner/index.ts:119-124 | the sync candidates are exactly the listed artifacts that have a registry entry, each as often as it is listed |
| Execution.SyncTargets | src/ComRunner/index.ts:358-360 | a sync reaches exactly the projects linked to the artifact, and has nothing to read when it has no registry entry |
| Execution.SyncListHasTargets | src/ComRunner/index.ts:357-360 | every sync candidate has a project set, so `_sync` cannot fail reading it |
| Execution.DispatchAll | src/BlockRunner/index.ts:451-482 | child runs follow the internal names in order, one per name; the first failed lookup stops the loop and is reported |
| ComRunner.RunsInstall | src/ComRunner/index.ts:187-236 | skipped if and only if a `com`/`util` target exists without its package.json and overwrite is off; an existing package.json, a missing target or overwrite always installs |
| ComRunner.InstalledUsesOwnOverwrite | src/ComRunner/index.ts:181-236 | with the component skip rule and the builder's own overwrite flag, a queued component reaches `_install` exactly when overwrite is on or no foreign file is in the way, and always after `overwrite()` |
| ComRunner.ProjectDeps | src/ComRunner/index.ts:415-420 | the merged keys are the union of the sources; an in-project component overrides devDependencies, which overrides dependencies |
| ComRunner.InProjectComIsSatisfied | src/ComRunner/index.ts:415-443 | a component already in the project at the declared caret-free version needs no action |
| ComRunner.ResolveInternal | src/ComRunner/index.ts:491-516 | each internal name goes to a component runner, looked up in the component list, and that runner installs only the first listed artifact of that name with the inherited overwrite flag; a missing name stops the loop |
| ComRunner.ComCommitMessage | src/ComRunner/index.ts:572 | without a user message the commit reads `chore(com): <action> <name>` |
| ComRunner.InstallAnalysis | src/ComRunner/index.ts:425-483 | npm runs if and only if some declared key is to be installed or updated; internal names all carry the `@qg-` prefix |
| ComRunner.MissingInternalAbortsExec | src/ComRunner/index.ts:491-508 | a queued component whose internal dependency the project lacks and the component list does not hold (a `@qg-block` name, say) makes `_install` throw, and exec then leaves the registry as it was |
| ComRunner.SyncProjectDepsAsWritten | src/ComRunner/index.ts:126-127 | during a sync the merge has the target's package.json keys plus the current project's component names, each of those mapped to a caret range |
| ComRunner.SyncSeesCurrentProjectComs | src/ComRunner/index.ts:411-420 | for the component input under "## Findings", held by the current project only and compared by a comparator that finds every pair equal, the dependency is judged satisfied as written and goes to a child runner under the target-only merge |
| ComRunner.SyncProjectDeps | src/ComRunner/index.ts:411-420 | the corrected sync merge has exactly the target project's package.json keys and component names |
| ComRunner.SyncLackingKeyIsNotSatisfied | src/ComRunner/index.ts:411-443 | with the corrected merge, a dependency the target has in none of its sources is never judged satisfied |
| ComRunner.SyncAnalysis | src/ComRunner/index.ts:401-483 | with the corrected merge, every dependency the target lacks is queued for npm or for a child runner |
| BlockRunner.RunsInstall | src/BlockRunner/index.ts:164-194 | a block is skipped if and only if `src/pages/<Pascal>` exists without a package.json and overwrite is off |
| BlockRunner.InstalledUsesOwnOverwrite | src/BlockRunner/index.ts:154-197 | with the block skip rule and the builder's own overwrite flag, a queued block reaches `_install` exactly when overwrite is on or no foreign page directory is in the way, and always after `overwrite()` |
| BlockRunner.ProjectDeps | src/BlockRunner/index.ts:374-380 | precedence is dependencies < devDependencies < in-project components < in-project blocks |
| BlockRunner.ProjectDepsExtendsComMerge | src/BlockRunner/index.ts:374-380 | the block merge agrees with the component merge on every name that is not an in-project block |
| BlockRunner.InProjectBlockIsSatisfied | src/BlockRunner/index.ts:385-403 | a block already in the project at the declared caret-free version needs no action |
| BlockRunner.BlockAnalysis | src/BlockRunner/index.ts:385-415 | against the four-source merge, a block's key is internal, installed or updated under exactly the same conditions as a component's, and otherwise in no list |
| BlockRunner.RunnerFor | src/BlockRunner/index.ts:457-462 | a block runner is chosen if and only if the name starts with `@qg-block` |
| BlockRunner.BlockNamesAreInternal | src/BlockRunner/index.ts:395-405 | every `@qg-block` name is also a `@qg-` name, so block dependencies always take the internal path |
| BlockRunner.ResolveInternal | src/BlockRunner/index.ts:451-481 | `@qg-block` names go to a block runner searching the block list; others go to a component runner searching the component list; each child installs the first artifact of that name in its list; a missing name stops the loop |
| BlockRunner.BlockCommitMessage | src/BlockRunner/index.ts:517-523 | the user's non-empty message, else `chore(block): install <name>`, or `update` when reached from a sync |
| BlockRunner.ChildRunsDoNotCommit | src/BlockRunner/index.ts:457-479 | no child runner started for an internal dependency makes its own commit, whatever artifact it installs |
| BlockRunner.SyncProjectDepsAsWritten | src/BlockRunner/index.ts:102-103 | during a block sync the merge has the target's package.json keys plus the current project's component and block names, and a current-project block maps to the caret range of its last listed version |
| BlockRunner.SyncSeesCurrentProjectBlocks | src/BlockRunner/index.ts:369-380 | for the block input under "## Findings", held by the current project only and compared by a comparator that finds every pair equal, the dependency is judged satisfied as written and goes to a child runner under the target-only merge |
| BlockRunner.SyncProjectDeps | src/BlockRunner/index.ts:369-380 | the corrected block sync merge has exactly the target project's package.json keys, component names and block names |
| BlockRunner.SyncLackingKeyIsNotSatisfied | src/BlockRunner/index.ts:369-403 | with the corrected merge, a dependency the target has in none of its four sources is never judged satisfied |

## Left out

- git clone/pull/add/commit/push, `npm install`, `glob`, `fse.copy` and
  `rimraf` are external processes and filesystem work. Only their inputs are
  modelled: the npm argument list, the commit message, and the probe results.
- The file-copy step of `_install` is not modelled. In the block runner it
  lists files under the component cache but copies them from the block cache
  (src/BlockRunner/index.ts:483-506).
- The recursive `exec` of a child runner is not modelled. The model stops at
  the child builder it is given. A cycle of `@qg-` dependencies would make
  qg-react-install recurse without end.
- `load()` before the block runner's lookup is not modelled, since it is a git
  fetch.
- `nconf` persistence and `saveConfig` are left out. The registry lives in
  memory only.
- `Listr` task running, the rxjs `Observable` wrapper, `streamPrint`/`split`
  and all `signale` logging are left out. They are concurrency and output
  plumbing with no effect on the modelled results.
- `joi` validation is left out. Its result is discarded, and it validates the
  context, not the builder.
- The CLIs (src/bin.ts, src/ComRunner/bin.ts, src/BlockRunner/bin.ts) and
  `inquirer` prompts are UI glue. The block CLI is a stub.
- src/ctx.ts path setup, src/interface.ts and split.d.ts are environment
  setup and type declarations.
- `getList` globbing and its `_listMap` cache are left out. The lists it
  returns are parameters.
- Versions.StripCarets: does not state that the order of the remaining
  characters is kept, only their counts and the absence of carets.
- Dependencies.AnalyseDependencies: the comparator is total. The real
  `compare-versions` throws on malformed version strings, and that error path
  is not modelled.
- Dependencies.AnalyseDependencies: `Object.keys` lists integer-like keys
  first. The model takes the declaration order as given.
- Dependencies.AnalyseDependencies: the merged map is modelled without
  JavaScript prototype lookup. `projectDeps` is a plain object, so a key
  such as `constructor` finds an inherited function. That value is truthy,
  and the following `.replace` call throws a TypeError, which rejects `exec`
  (src/ComRunner/index.ts:428-431, src/BlockRunner/index.ts:388-391). In the
  model such a key is simply absent and goes to the install list.
- Missing package.json data is not modelled as an error. An artifact without
  a `dependencies` field, or a project without a package.json, makes the
  tool throw. The model always has a dependency list, and it treats
  missing project dependency maps as empty.
- Execution.ExecRegistry: which `_install` calls throw is a parameter. Only
  the failed internal lookup is derived from the model
  (ComRunner.MissingInternalAbortsExec). npm, git, file-copy and
  package.json errors are not.
- Child runners started during a sync receive no project path, so they
  install internal dependencies into the current project rather than into
  the synced one (src/ComRunner/index.ts:491-513, with the `_install` calls
  at lines 229 and 235). Builders carry no project path, and this routing is
  not modelled. ComRunner.SyncAnalysis stops at the plan.
- ComRunner.SyncAnalysis: the sync analysis uses the corrected merge. The
  merge as written is kept only to exhibit the finding below.

## Findings

| source | as written | input that shows it | evidently intended | confidence | as-written member | corrected member |
|---|---|---|---|---|---|---|
| src/ComRunner/index.ts:411-420 | during a sync, `_install` reads the target project's package.json but merges in the components of the current project (`getProjectComDeps` always lists `ctx.PROJECT_PATH`, line 127) | `@qg-com/a` 1.0.0 is in the current project only, and the target's component declares `^1.0.0`: it is judged satisfied and never reaches the target | every merge source comes from the project being installed into | not executed | ComRunner.SyncProjectDepsAsWritten | ComRunner.SyncProjectDeps |
| src/BlockRunner/index.ts:369-380 | the block sync merge likewise takes components and blocks from the current project (`getProjectBlockDeps`, line 103) | `@qg-block/list` 2.1.0 is in the current project only, and the target's block declares `2.1.0`: it is judged satisfied | every merge source comes from the project being installed into | not executed | BlockRunner.SyncProjectDepsAsWritten | BlockRunner.SyncProjectDeps |

ComRunner.SyncSeesCurrentProjectComs and BlockRunner.SyncSeesCurrentProjectBlocks
prove that each input above is judged satisfied as written and goes to a child
runner under the corrected merge. ComRunner.SyncLackingKeyIsNotSatisfied and
BlockRunner.SyncLackingKeyIsNotSatisfied prove the intended property of the
corrected merges for every input.
