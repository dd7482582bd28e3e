/**
 The block runner (`BlockRunner`): page blocks live under
 `src/pages/<PascalName>`. Its analysis merges the in-project blocks on top of
 the in-project components, and it hands internal dependencies to a block or a
 component runner by name.
 */
module BlockRunner {
  import opened Wrappers
  import opened Versions
  import opened Packages
  import opened Dependencies
  import opened Builders
  import opened Execution
  import ComRunner

  /** The logger and commit-message scope. */
  const Scope: string := "block"

  /** Internal names with this prefix are blocks. */
  const BlockPrefix: string := "@qg-block"

  /** Where the block goes in the project; `pascal` stands for `changeCase.pascalCase`. */
  function TargetPath(block: Artifact, pascal: string -> string): string {
    "./src/pages/" + pascal(block.shortName)
  }

  function ManifestPath(block: Artifact, pascal: string -> string): string {
    "./src/pages/" + pascal(block.shortName) + "/package.json"
  }

  /** The page directory exists but was not installed by this tool. */
  predicate HasForeignFile(block: Artifact, pathExists: string -> bool, pascal: string -> string) {
    pathExists(TargetPath(block, pascal)) && !pathExists(ManifestPath(block, pascal))
  }

  /** Whether `exec` calls `_install` for a queued block: skipped only when a
      foreign page directory is in the way and overwrite is off. */
  function RunsInstall(block: Artifact, pathExists: string -> bool, pascal: string -> string, overwrite: bool): (r: bool)
    ensures !r <==> pathExists(TargetPath(block, pascal)) && !pathExists(ManifestPath(block, pascal)) && !overwrite
    ensures overwrite ==> r
  {
    if HasForeignFile(block, pathExists, pascal) then overwrite else true
  }

  /** `exec` makes the skip decision with the builder's own overwrite flag: a
      queued block reaches `_install` exactly when overwrite is on or no
      foreign page directory is in the way, and always once `overwrite()` was
      called. */
  lemma InstalledUsesOwnOverwrite(b: Builder, pathExists: string -> bool, pascal: string -> string, a: Artifact)
    requires b.install.Some? && a in b.install.value
    ensures a in Installed(b, (c: Artifact) => RunsInstall(c, pathExists, pascal, b.overwrite))
            <==> b.overwrite || !HasForeignFile(a, pathExists, pascal)
    ensures var o := WithOverwrite(b);
            a in Installed(o, (c: Artifact) => RunsInstall(c, pathExists, pascal, o.overwrite))
  {
    var o := WithOverwrite(b);
    assert o.install == b.install;
  }

  /** The project's merged dependency map: `dependencies` < `devDependencies`
      < in-project components < in-project blocks, a later source overriding
      an earlier one. */
  function ProjectDeps(dependencies: DepMap, devDependencies: DepMap,
                       projectComs: seq<Artifact>, projectBlocks: seq<Artifact>): (r: DepMap)
    ensures r.Keys == dependencies.Keys + devDependencies.Keys
                      + NameSet(projectComs) + NameSet(projectBlocks)
    ensures forall i :: 0 <= i < |projectBlocks| && LastWithName(projectBlocks, i) ==>
              r[projectBlocks[i].name] == "^" + projectBlocks[i].version
    ensures forall i :: 0 <= i < |projectComs| && LastWithName(projectComs, i)
                        && projectComs[i].name !in NameSet(projectBlocks) ==>
              r[projectComs[i].name] == "^" + projectComs[i].version
    ensures forall n :: n in devDependencies && n !in NameSet(projectComs)
                        && n !in NameSet(projectBlocks) ==>
              r[n] == devDependencies[n]
    ensures forall n :: n in dependencies && n !in devDependencies && n !in NameSet(projectComs)
                        && n !in NameSet(projectBlocks) ==>
              r[n] == dependencies[n]
  {
    dependencies + devDependencies + VersionMap(projectComs) + VersionMap(projectBlocks)
  }

  /** The block merge is the component merge with the in-project blocks laid
      on top. */
  lemma ProjectDepsExtendsComMerge(dependencies: DepMap, devDependencies: DepMap,
                                   projectComs: seq<Artifact>, projectBlocks: seq<Artifact>)
    ensures var com := ComRunner.ProjectDeps(dependencies, devDependencies, projectComs);
            var block := ProjectDeps(dependencies, devDependencies, projectComs, projectBlocks);
            forall n :: n in com && n !in NameSet(projectBlocks) ==> n in block && block[n] == com[n]
  {
  }

  /** A block already in the project at the declared version (carets aside)
      is left alone, for any comparator that finds a version not lower than
      itself. */
  lemma InProjectBlockIsSatisfied(dependencies: DepMap, devDependencies: DepMap,
                                  projectComs: seq<Artifact>, projectBlocks: seq<Artifact>,
                                  i: int, dep: Pin, cmp: Comparator)
    requires 0 <= i < |projectBlocks| && LastWithName(projectBlocks, i)
    requires dep.name == projectBlocks[i].name
    requires StripCarets(dep.version) == StripCarets(projectBlocks[i].version)
    requires cmp(StripCarets(dep.version), StripCarets(dep.version)) >= 0
    ensures Decide(dep, ProjectDeps(dependencies, devDependencies, projectComs, projectBlocks), cmp) == Satisfied
  {
    var pd := ProjectDeps(dependencies, devDependencies, projectComs, projectBlocks);
    CaretRangeStripsToVersion(projectBlocks[i].version);
    SameVersionIsSatisfied(dep, pd, cmp);
  }

  /** The block analysis by cases, against the four-source merge: a `@qg-`
      key the project lacks or has lower is internal, a public one it lacks is
      installed, a public one it has lower is updated, and nothing else lands
      in a list. */
  lemma BlockAnalysis(block: Artifact, dependencies: DepMap, devDependencies: DepMap,
                      projectComs: seq<Artifact>, projectBlocks: seq<Artifact>, cmp: Comparator, p: Pin)
    requires UniqueNames(block.dependencies)
    requires p in block.dependencies
    ensures var pd := ProjectDeps(dependencies, devDependencies, projectComs, projectBlocks);
            var plan := Classify(block.dependencies, pd, cmp);
            var lower := Declares(pd, p.name) && Lower(cmp, pd[p.name], p.version);
            && (p.name in plan.internal <==> IsInternal(p.name) && (!Declares(pd, p.name) || lower))
            && (p.name in Names(plan.install) <==> !IsInternal(p.name) && !Declares(pd, p.name))
            && (p.name in Names(plan.update) <==> !IsInternal(p.name) && lower)
  {
    var pd := ProjectDeps(dependencies, devDependencies, projectComs, projectBlocks);
    ClassifyByCase(block.dependencies, pd, cmp, p);
  }

  /** The runner that handles an internal dependency. */
  function RunnerFor(name: string): (k: RunnerKind)
    ensures k == BlockRunnerKind <==> BlockPrefix <= name
  {
    if BlockPrefix <= name then BlockRunnerKind else ComRunnerKind
  }

  /** Every block name is also an internal name. */
  lemma BlockNamesAreInternal(name: string)
    requires BlockPrefix <= name
    ensures IsInternal(name)
  {
    assert name[..|InternalPrefix|] == BlockPrefix[..|InternalPrefix|];
  }

  /** The list the chosen runner searches. */
  function ListFor(name: string, comList: seq<Artifact>, blockList: seq<Artifact>): seq<Artifact> {
    if RunnerFor(name) == BlockRunnerKind then blockList else comList
  }

  /** The internal-dependency loop of the block runner: a `@qg-block` name is
      looked up in the block list and handed to a block runner, any other name
      in the component list and handed to a component runner; a name missing
      from its list stops the loop with an error. */
  function ResolveInternal(internal: seq<string>, comList: seq<Artifact>, blockList: seq<Artifact>,
                           parent: Builder): (d: Dispatch)
    ensures d.missing.None? <==> |d.runs| == |internal|
    ensures d.missing.Some? ==>
              && |d.runs| < |internal|
              && d.missing.value == internal[|d.runs|]
              && d.missing.value !in NameSet(ListFor(d.missing.value, comList, blockList))
    ensures forall i :: 0 <= i < |d.runs| ==>
              && (d.runs[i].runner == BlockRunnerKind <==> BlockPrefix <= internal[i])
              && d.runs[i].builder.overwrite == parent.overwrite
              && d.runs[i].builder.install.Some?
              && |d.runs[i].builder.install.value| == 1
              && d.runs[i].builder.install.value[0] in ListFor(internal[i], comList, blockList)
              && d.runs[i].builder.install.value[0].name == internal[i]
              && Find(ListFor(internal[i], comList, blockList), internal[i]).Some?
              && d.runs[i].builder.install.value[0] == Find(ListFor(internal[i], comList, blockList), internal[i]).value
  {
    DispatchAll(internal, RunnerFor, (n: string) => Find(ListFor(n, comList, blockList), n), parent)
  }

  /** The block runner's commit message for `_install`: the user's message,
      else `chore(block): install <name>`, or `update` when reached from a sync. */
  function BlockCommitMessage(b: Builder, action: Action, block: Artifact): (r: Option<string>)
    ensures r.Some? <==> b.commit.Some?
    ensures b.commit.Some? && b.commit.value.message.Some? && b.commit.value.message.value != "" ==>
              r == b.commit.value.message
    ensures b.commit.Some? && (b.commit.value.message.None? || b.commit.value.message.value == "") ==>
              r.value == "chore(block): " + ActionWord(action) + " " + block.name
  {
    CommitMessage(Scope, b.commit, action, block.name)
  }

  /** A child runner never commits: only the runner the user configured does. */
  lemma ChildRunsDoNotCommit(internal: seq<string>, comList: seq<Artifact>, blockList: seq<Artifact>,
                             parent: Builder, action: Action)
    ensures forall run :: run in ResolveInternal(internal, comList, blockList, parent).runs ==>
              forall block :: BlockCommitMessage(run.builder, action, block).None?
  {
    var d := DispatchAll(internal, RunnerFor, (n: string) => Find(ListFor(n, comList, blockList), n), parent);
    assert d == ResolveInternal(internal, comList, blockList, parent);
  }

  /** The merged map a block sync into `target` analyses, as written: the
      target's package.json, then the current project's components and
      blocks. */
  function SyncProjectDepsAsWritten(target: ProjectState, current: ProjectState): (r: DepMap)
    ensures r.Keys == target.dependencies.Keys + target.devDependencies.Keys
                      + NameSet(current.coms) + NameSet(current.blocks)
    ensures forall i :: 0 <= i < |current.blocks| && LastWithName(current.blocks, i) ==>
              r[current.blocks[i].name] == "^" + current.blocks[i].version
  {
    ProjectDeps(target.dependencies, target.devDependencies, current.coms, current.blocks)
  }

  /** The intended merge for a block sync: every source from the target project. */
  function SyncProjectDeps(target: ProjectState): (r: DepMap)
    ensures r.Keys == target.dependencies.Keys + target.devDependencies.Keys
                      + NameSet(target.coms) + NameSet(target.blocks)
  {
    ProjectDeps(target.dependencies, target.devDependencies, target.coms, target.blocks)
  }

  /** As written, a block sync treats a block the target project lacks as
      satisfied when the current project has it. */
  lemma SyncSeesCurrentProjectBlocks()
    ensures var blk := Artifact("@qg-block/list", "list", "2.1.0", BlockKind, []);
            var target := ProjectState(map[], map[], [], []);
            var current := ProjectState(map[], map[], [], [blk]);
            var dep := Pin("@qg-block/list", "2.1.0");
            var equal := (x: string, y: string) => 0;
            && Decide(dep, SyncProjectDepsAsWritten(target, current), equal) == Satisfied
            && Decide(dep, SyncProjectDeps(target), equal) == Internal
  {
    var blk := Artifact("@qg-block/list", "list", "2.1.0", BlockKind, []);
    assert LastWithName([blk], 0);
    assert InternalPrefix <= "@qg-block/list";
  }

  /** With the intended merge, a dependency the target project has in none of
      its four sources is never treated as satisfied. */
  lemma SyncLackingKeyIsNotSatisfied(target: ProjectState, dep: Pin, cmp: Comparator)
    requires dep.name !in target.dependencies && dep.name !in target.devDependencies
    requires dep.name !in NameSet(target.coms) && dep.name !in NameSet(target.blocks)
    ensures Decide(dep, SyncProjectDeps(target), cmp) != Satisfied
  {
  }
}
