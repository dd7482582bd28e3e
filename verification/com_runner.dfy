/**
 The component runner (`ComRunner`): components live under
 `src/components/<PascalName>`, utilities under `src/utils/<shortName>.ts`,
 each with a package.json beside it when the tool installed it.
 */
module ComRunner {
  import opened Wrappers
  import opened Versions
  import opened Packages
  import opened Dependencies
  import opened Builders
  import opened Execution
  import Links

  /** The logger and commit-message scope. */
  const Scope: string := "com"

  /** Where the artifact's code goes in the project, relative to its root;
      `pascal` stands for `changeCase.pascalCase`. */
  function TargetPath(com: Artifact, pascal: string -> string): string {
    if com.kind == UtilKind then "./src/utils/" + com.shortName + ".ts"
    else "./src/components/" + pascal(com.shortName)
  }

  /** The package.json that marks the target as installed by this tool. */
  function ManifestPath(com: Artifact, pascal: string -> string): string {
    if com.kind == UtilKind then "./src/utils/" + com.shortName + ".package.json"
    else "./src/components/" + pascal(com.shortName) + "/package.json"
  }

  /** A same-named file that is not a component occupies the target: the target
      exists but its package.json does not. Only `com` and `util` artifacts are
      probed. */
  predicate HasForeignFile(com: Artifact, pathExists: string -> bool, pascal: string -> string) {
    (com.kind == ComKind || com.kind == UtilKind)
    && pathExists(TargetPath(com, pascal))
    && !pathExists(ManifestPath(com, pascal))
  }

  /** Whether `exec` calls `_install` for a queued artifact: it is skipped only
      when a foreign file is in the way and overwrite is off. */
  function RunsInstall(com: Artifact, pathExists: string -> bool, pascal: string -> string, overwrite: bool): (r: bool)
    ensures !r <==> HasForeignFile(com, pathExists, pascal) && !overwrite
    ensures overwrite ==> r
    ensures pathExists(ManifestPath(com, pascal)) ==> r
    ensures !pathExists(TargetPath(com, pascal)) ==> r
  {
    if HasForeignFile(com, pathExists, pascal) then overwrite else true
  }

  /** `exec` makes the skip decision with the builder's own overwrite flag: a
      queued component reaches `_install` exactly when overwrite is on or no
      foreign file is in the way, and always once `overwrite()` was called. */
  lemma InstalledUsesOwnOverwrite(b: Builder, pathExists: string -> bool, pascal: string -> string, a: Artifact)
    requires b.install.Some? && a in b.install.value
    ensures a in Installed(b, (c: Artifact) => RunsInstall(c, pathExists, pascal, b.overwrite))
            <==> b.overwrite || !HasForeignFile(a, pathExists, pascal)
    ensures var o := WithOverwrite(b);
            a in Installed(o, (c: Artifact) => RunsInstall(c, pathExists, pascal, o.overwrite))
  {
    var o := WithOverwrite(b);
    assert o.install == b.install;
  }

  /** The project's merged dependency map: `dependencies`, then
      `devDependencies`, then the components already in the project, each
      later source overriding the earlier ones. */
  function ProjectDeps(dependencies: DepMap, devDependencies: DepMap, projectComs: seq<Artifact>): (r: DepMap)
    ensures r.Keys == dependencies.Keys + devDependencies.Keys + NameSet(projectComs)
    ensures forall i :: 0 <= i < |projectComs| && LastWithName(projectComs, i) ==>
              r[projectComs[i].name] == "^" + projectComs[i].version
    ensures forall n :: n in devDependencies && n !in NameSet(projectComs) ==>
              r[n] == devDependencies[n]
    ensures forall n :: n in dependencies && n !in devDependencies && n !in NameSet(projectComs) ==>
              r[n] == dependencies[n]
  {
    dependencies + devDependencies + VersionMap(projectComs)
  }

  /** A component already in the project at the declared version (carets
      aside) is left alone, for any comparator that finds a version not lower
      than itself. */
  lemma InProjectComIsSatisfied(dependencies: DepMap, devDependencies: DepMap, projectComs: seq<Artifact>,
                                i: int, dep: Pin, cmp: Comparator)
    requires 0 <= i < |projectComs| && LastWithName(projectComs, i)
    requires dep.name == projectComs[i].name
    requires StripCarets(dep.version) == StripCarets(projectComs[i].version)
    requires cmp(StripCarets(dep.version), StripCarets(dep.version)) >= 0
    ensures Decide(dep, ProjectDeps(dependencies, devDependencies, projectComs), cmp) == Satisfied
  {
    var pd := ProjectDeps(dependencies, devDependencies, projectComs);
    CaretRangeStripsToVersion(projectComs[i].version);
    SameVersionIsSatisfied(dep, pd, cmp);
  }

  /** The internal-dependency loop of the component runner: every name, even a
      block's, is looked up in the component list and handed to a component
      runner; a name missing from the list stops the loop with an error. */
  function ResolveInternal(internal: seq<string>, comList: seq<Artifact>, parent: Builder): (d: Dispatch)
    ensures d.missing.None? <==> |d.runs| == |internal|
    ensures d.missing.Some? ==>
              && |d.runs| < |internal|
              && d.missing.value == internal[|d.runs|]
              && d.missing.value !in NameSet(comList)
    ensures forall i :: 0 <= i < |d.runs| ==>
              && d.runs[i].runner == ComRunnerKind
              && d.runs[i].builder.overwrite == parent.overwrite
              && d.runs[i].builder.install.Some?
              && |d.runs[i].builder.install.value| == 1
              && d.runs[i].builder.install.value[0] in comList
              && d.runs[i].builder.install.value[0].name == internal[i]
              && Find(comList, internal[i]).Some?
              && d.runs[i].builder.install.value[0] == Find(comList, internal[i]).value
  {
    DispatchAll(internal, (n: string) => ComRunnerKind, (n: string) => Find(comList, n), parent)
  }

  /** The component runner's commit message for `_install`. */
  function ComCommitMessage(b: Builder, action: Action, com: Artifact): (r: Option<string>)
    ensures r.Some? <==> b.commit.Some?
    ensures b.commit.Some? && (b.commit.value.message.None? || b.commit.value.message.value == "") ==>
              r.value == "chore(com): " + ActionWord(action) + " " + com.name
  {
    CommitMessage(Scope, b.commit, action, com.name)
  }

  /** The whole analysis of `_install` for one component: the three lists, and
      the npm call they lead to. */
  lemma InstallAnalysis(com: Artifact, dependencies: DepMap, devDependencies: DepMap,
                        projectComs: seq<Artifact>, cmp: Comparator)
    ensures var pd := ProjectDeps(dependencies, devDependencies, projectComs);
            var plan := Classify(com.dependencies, pd, cmp);
            && (NpmArgs(plan).Some? <==>
                  (exists p :: p in com.dependencies && (Decide(p, pd, cmp) == Install || Decide(p, pd, cmp) == Update)))
            && (forall n :: n in plan.internal ==> IsInternal(n))
  {
    var pd := ProjectDeps(dependencies, devDependencies, projectComs);
    var plan := Classify(com.dependencies, pd, cmp);
    ClassifySeparatesInternal(com.dependencies, pd, cmp);
    var ins := Select(com.dependencies, pd, cmp, Install);
    var upd := Select(com.dependencies, pd, cmp, Update);
    if exists p :: p in com.dependencies && (Decide(p, pd, cmp) == Install || Decide(p, pd, cmp) == Update) {
      var p :| p in com.dependencies && (Decide(p, pd, cmp) == Install || Decide(p, pd, cmp) == Update);
      if Decide(p, pd, cmp) == Install {
        assert p in ins;
        assert |plan.install| == |ins|;
      } else {
        assert p in upd;
        assert |plan.update| == |upd|;
      }
    }
    if plan.install != [] {
      assert ins[0] in ins;
    }
    if plan.update != [] {
      assert upd[0] in upd;
    }
  }

  /** `_install` throws for a component when one of its internal dependencies
      is not in the component list. */
  predicate InternalLookupFails(com: Artifact, projectDeps: DepMap, cmp: Comparator,
                                comList: seq<Artifact>, parent: Builder) {
    ResolveInternal(Classify(com.dependencies, projectDeps, cmp).internal, comList, parent).missing.Some?
  }

  /** A queued component that declares an internal dependency the project
      lacks and the component list does not hold (a `@qg-block` name, say)
      makes its `_install` throw, so `exec` stops before linking and leaves
      the registry as it was. */
  lemma MissingInternalAbortsExec(b: Builder, reg: Links.Registry, project: string,
                                  runs: Artifact -> bool, projectDeps: DepMap, cmp: Comparator,
                                  comList: seq<Artifact>, a: Artifact, p: Pin)
    requires b.install.Some? && a in b.install.value && runs(a)
    requires p in a.dependencies && IsInternal(p.name) && !Declares(projectDeps, p.name)
    requires p.name !in NameSet(comList)
    ensures InternalLookupFails(a, projectDeps, cmp, comList, b)
    ensures ExecRegistry(b, reg, project, runs,
                         (c: Artifact) => InternalLookupFails(c, projectDeps, cmp, comList, b)) == reg
  {
    var internal := Classify(a.dependencies, projectDeps, cmp).internal;
    AbsentKey(a.dependencies, projectDeps, cmp, p);
    var k :| 0 <= k < |internal| && internal[k] == p.name;
    var d := ResolveInternal(internal, comList, b);
    assert d.missing.Some?;
    assert a in Installed(b, runs);
  }

  /** The merged map a sync of `target` analyses, as written: `_install` reads
      the target project's package.json but takes the in-project components
      from the current project, whose path the component list is read from. */
  function SyncProjectDepsAsWritten(target: ProjectState, current: ProjectState): (r: DepMap)
    ensures r.Keys == target.dependencies.Keys + target.devDependencies.Keys + NameSet(current.coms)
    ensures forall n :: n in NameSet(current.coms) ==> n in r && "^" <= r[n]
  {
    var r := ProjectDeps(target.dependencies, target.devDependencies, current.coms);
    assert forall n :: n in NameSet(current.coms) ==> n in r && "^" <= r[n] by {
      forall n | n in NameSet(current.coms) ensures n in r && "^" <= r[n] {
        var a :| a in current.coms && a.name == n;
        var i :| 0 <= i < |current.coms| && current.coms[i] == a;
        var j := LastIndexOf(current.coms, i);
      }
    }
    r
  }

  /** The last index holding the name of the artifact at `i`. */
  function LastIndexOf(list: seq<Artifact>, i: int): (j: int)
    requires 0 <= i < |list|
    ensures i <= j < |list| && list[j].name == list[i].name && LastWithName(list, j)
    decreases |list| - i
  {
    if exists k :: i < k < |list| && list[k].name == list[i].name then
      var k :| i < k < |list| && list[k].name == list[i].name;
      LastIndexOf(list, k)
    else i
  }

  /** The intended merge for a sync: every source from the target project. */
  function SyncProjectDeps(target: ProjectState): (r: DepMap)
    ensures r.Keys == target.dependencies.Keys + target.devDependencies.Keys + NameSet(target.coms)
  {
    ProjectDeps(target.dependencies, target.devDependencies, target.coms)
  }

  /** As written, a sync treats a component the target project lacks as
      satisfied when the current project has it: here `@qg-com/a` is in the
      current project only, and the comparator finds equal versions equal. */
  lemma SyncSeesCurrentProjectComs()
    ensures var a := Artifact("@qg-com/a", "a", "1.0.0", ComKind, []);
            var target := ProjectState(map[], map[], [], []);
            var current := ProjectState(map[], map[], [a], []);
            var dep := Pin("@qg-com/a", "^1.0.0");
            var equal := (x: string, y: string) => 0;
            && Decide(dep, SyncProjectDepsAsWritten(target, current), equal) == Satisfied
            && Decide(dep, SyncProjectDeps(target), equal) == Internal
  {
    var a := Artifact("@qg-com/a", "a", "1.0.0", ComKind, []);
    assert LastWithName([a], 0);
    assert InternalPrefix <= "@qg-com/a";
  }

  /** With the intended merge, a dependency the target project has in none of
      its sources is never treated as satisfied. */
  lemma SyncLackingKeyIsNotSatisfied(target: ProjectState, dep: Pin, cmp: Comparator)
    requires dep.name !in target.dependencies && dep.name !in target.devDependencies
    requires dep.name !in NameSet(target.coms)
    ensures Decide(dep, SyncProjectDeps(target), cmp) != Satisfied
  {
  }

  /** The analysis of a sync into `target`, with the intended merge: every
      dependency the target lacks is acted on, by npm or by a child runner. */
  function SyncAnalysis(com: Artifact, target: ProjectState, cmp: Comparator): (plan: Plan)
    ensures forall p :: p in com.dependencies && p.name !in SyncProjectDeps(target) ==>
              (IsInternal(p.name) ==> p.name in plan.internal) &&
              (!IsInternal(p.name) ==> Pin(p.name, StripCarets(p.version)) in plan.install)
  {
    var pd := SyncProjectDeps(target);
    var plan := Classify(com.dependencies, pd, cmp);
    forall p | p in com.dependencies && p.name !in pd
      ensures (IsInternal(p.name) ==> p.name in plan.internal) &&
              (!IsInternal(p.name) ==> Pin(p.name, StripCarets(p.version)) in plan.install)
    {
      AbsentKey(com.dependencies, pd, cmp, p);
    }
    plan
  }
}
