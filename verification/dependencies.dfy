/**
 Dependency reconciliation, the analysis at the head of `_install` in both
 runners: each key of the artifact's declared dependencies is compared with
 the project's merged dependency map and sorted into one of four outcomes.
 */
module Dependencies {
  import opened Wrappers
  import opened Versions
  import opened Packages

  /** The project's merged dependency map (name to version range). */
  type DepMap = map<string, string>

  /** What `_install` reads of a project: its package.json maps and the
      components and blocks already installed in it. */
  datatype ProjectState = ProjectState(
    dependencies: DepMap,
    devDependencies: DepMap,
    coms: seq<Artifact>,
    blocks: seq<Artifact>)

  /** Names with this prefix are shared artifacts, installed by a runner
      rather than by npm. */
  const InternalPrefix: string := "@qg-"

  predicate IsInternal(name: string) {
    InternalPrefix <= name
  }

  /** `projectDeps[name]` is truthy: present, with a non-empty version. */
  predicate Declares(projectDeps: DepMap, name: string) {
    name in projectDeps && projectDeps[name] != ""
  }

  /** What the analysis decides for one declared dependency. */
  datatype Outcome =
    | Satisfied   // the project already has it at a version that is not lower
    | Update      // a public package the project has at a lower version
    | Install     // a public package the project lacks
    | Internal    // a shared artifact the project lacks or has at a lower version

  /** The decision taken for one key inside the analysis loop. */
  function Decide(dep: Pin, projectDeps: DepMap, cmp: Comparator): Outcome {
    if Declares(projectDeps, dep.name) then
      if Lower(cmp, projectDeps[dep.name], dep.version) then
        if IsInternal(dep.name) then Internal else Update
      else Satisfied
    else if IsInternal(dep.name) then Internal else Install
  }

  /** The declared entries whose outcome is `o`, in declaration order. */
  function Select(deps: seq<Pin>, projectDeps: DepMap, cmp: Comparator, o: Outcome): (r: seq<Pin>)
    ensures |r| <= |deps|
    ensures forall p :: p in r ==> p in deps && Decide(p, projectDeps, cmp) == o
    ensures forall p :: p in deps && Decide(p, projectDeps, cmp) == o ==> p in r
  {
    if deps == [] then []
    else
      assert deps == [deps[0]] + deps[1..];
      (if Decide(deps[0], projectDeps, cmp) == o then [deps[0]] else [])
      + Select(deps[1..], projectDeps, cmp, o)
  }

  function Names(ps: seq<Pin>): seq<string> {
    seq(|ps|, i requires 0 <= i < |ps| => ps[i].name)
  }

  /** The entries with their required versions stripped of carets, as pushed
      onto `installDeps` and `updateDeps`. */
  function Stripped(ps: seq<Pin>): seq<Pin> {
    seq(|ps|, i requires 0 <= i < |ps| => Pin(ps[i].name, StripCarets(ps[i].version)))
  }

  /** The three lists the analysis produces: `qgDeps`, `installDeps`, `updateDeps`. */
  datatype Plan = Plan(internal: seq<string>, install: seq<Pin>, update: seq<Pin>)

  /** The lists appended one after the other. */
  function Concat(a: Plan, b: Plan): Plan {
    Plan(a.internal + b.internal, a.install + b.install, a.update + b.update)
  }

  /** Reference definition of the analysis: each list is the declared entries
      of one outcome, filtered in declaration order. */
  function Classify(deps: seq<Pin>, projectDeps: DepMap, cmp: Comparator): Plan {
    Plan(
      Names(Select(deps, projectDeps, cmp, Internal)),
      Stripped(Select(deps, projectDeps, cmp, Install)),
      Stripped(Select(deps, projectDeps, cmp, Update)))
  }

  /** Filtering distributes over concatenation. */
  lemma {:induction false} SelectAppend(a: seq<Pin>, b: seq<Pin>, projectDeps: DepMap, cmp: Comparator, o: Outcome)
    ensures Select(a + b, projectDeps, cmp, o) == Select(a, projectDeps, cmp, o) + Select(b, projectDeps, cmp, o)
  {
    if a == [] {
      assert a + b == b;
    } else {
      assert (a + b)[0] == a[0];
      assert (a + b)[1..] == a[1..] + b;
      SelectAppend(a[1..], b, projectDeps, cmp, o);
    }
  }

  /** The analysis of a concatenation is the concatenation of the analyses:
      every list keeps declaration order, and each key's outcome depends on
      that key alone. */
  lemma ClassifyAppend(a: seq<Pin>, b: seq<Pin>, projectDeps: DepMap, cmp: Comparator)
    ensures Classify(a + b, projectDeps, cmp) ==
            Concat(Classify(a, projectDeps, cmp), Classify(b, projectDeps, cmp))
  {
    SelectAppend(a, b, projectDeps, cmp, Internal);
    SelectAppend(a, b, projectDeps, cmp, Install);
    SelectAppend(a, b, projectDeps, cmp, Update);
    NamesAppend(Select(a, projectDeps, cmp, Internal), Select(b, projectDeps, cmp, Internal));
    StrippedAppend(Select(a, projectDeps, cmp, Install), Select(b, projectDeps, cmp, Install));
    StrippedAppend(Select(a, projectDeps, cmp, Update), Select(b, projectDeps, cmp, Update));
  }

  lemma NamesAppend(a: seq<Pin>, b: seq<Pin>)
    ensures Names(a + b) == Names(a) + Names(b)
  {
  }

  lemma StrippedAppend(a: seq<Pin>, b: seq<Pin>)
    ensures Stripped(a + b) == Stripped(a) + Stripped(b)
  {
  }

  /** What one declared entry adds to the three lists. */
  function Contribution(dep: Pin, projectDeps: DepMap, cmp: Comparator): Plan {
    match Decide(dep, projectDeps, cmp)
    case Internal => Plan([dep.name], [], [])
    case Install => Plan([], [Pin(dep.name, StripCarets(dep.version))], [])
    case Update => Plan([], [], [Pin(dep.name, StripCarets(dep.version))])
    case Satisfied => Plan([], [], [])
  }

  lemma ClassifyOne(dep: Pin, projectDeps: DepMap, cmp: Comparator)
    ensures Classify([dep], projectDeps, cmp) == Contribution(dep, projectDeps, cmp)
  {
    assert [dep][1..] == [];
  }

  lemma ClassifySnoc(prefix: seq<Pin>, dep: Pin, projectDeps: DepMap, cmp: Comparator)
    ensures Classify(prefix + [dep], projectDeps, cmp) ==
            Concat(Classify(prefix, projectDeps, cmp), Contribution(dep, projectDeps, cmp))
  {
    ClassifyAppend(prefix, [dep], projectDeps, cmp);
    ClassifyOne(dep, projectDeps, cmp);
  }

  /** The analysis loop of `_install`: one visit per declared key, in key
      order, pushing onto at most one of the three lists. */
  method AnalyseDependencies(deps: seq<Pin>, projectDeps: DepMap, cmp: Comparator) returns (plan: Plan)
    ensures plan == Classify(deps, projectDeps, cmp)
  {
    plan := Plan([], [], []);
    var i := 0;
    while i < |deps|
      invariant 0 <= i <= |deps|
      invariant plan == Classify(deps[..i], projectDeps, cmp)
    {
      assert deps[..i + 1] == deps[..i] + [deps[i]];
      ClassifySnoc(deps[..i], deps[i], projectDeps, cmp);
      plan := Visit(plan, deps[i], projectDeps, cmp);
      i := i + 1;
    }
    assert deps[..i] == deps;
  }

  /** One iteration of the analysis loop: the branches of `_install` that
      push the key onto `qgDeps`, `installDeps` or `updateDeps`. */
  method Visit(plan: Plan, dep: Pin, projectDeps: DepMap, cmp: Comparator) returns (next: Plan)
    ensures next == Concat(plan, Contribution(dep, projectDeps, cmp))
  {
    var stripped := Pin(dep.name, StripCarets(dep.version));
    next := plan;
    if Declares(projectDeps, dep.name) {
      if cmp(StripCarets(projectDeps[dep.name]), StripCarets(dep.version)) < 0 {
        if IsInternal(dep.name) {
          next := next.(internal := next.internal + [dep.name]);
        } else {
          next := next.(update := next.update + [stripped]);
        }
      }
    } else {
      if IsInternal(dep.name) {
        next := next.(internal := next.internal + [dep.name]);
      } else {
        next := next.(install := next.install + [stripped]);
      }
    }
    assert plan.internal + [] == plan.internal;
    assert plan.install + [] == plan.install;
    assert plan.update + [] == plan.update;
  }

  /** Every declared key gets exactly one outcome: the four filtered lists
      together are exactly as long as the declaration. */
  lemma {:induction false} SelectPartition(deps: seq<Pin>, projectDeps: DepMap, cmp: Comparator)
    ensures |Select(deps, projectDeps, cmp, Satisfied)| + |Select(deps, projectDeps, cmp, Update)|
          + |Select(deps, projectDeps, cmp, Install)| + |Select(deps, projectDeps, cmp, Internal)| == |deps|
  {
    if deps != [] {
      SelectPartition(deps[1..], projectDeps, cmp);
    }
  }

  /** The three lists plus the satisfied keys account for every declared key once. */
  lemma ClassifyCoversEveryKey(deps: seq<Pin>, projectDeps: DepMap, cmp: Comparator)
    ensures var plan := Classify(deps, projectDeps, cmp);
            |plan.internal| + |plan.install| + |plan.update|
            + |Select(deps, projectDeps, cmp, Satisfied)| == |deps|
  {
    SelectPartition(deps, projectDeps, cmp);
  }

  /** With unique keys, two declared entries with the same name are the same entry. */
  lemma SameNameSameEntry(deps: seq<Pin>, p: Pin, q: Pin)
    requires UniqueNames(deps)
    requires p in deps && q in deps && p.name == q.name
    ensures p == q
  {
    var i :| 0 <= i < |deps| && deps[i] == p;
    var j :| 0 <= j < |deps| && deps[j] == q;
    assert i == j;
  }

  /** A key named in the list of outcome `o` has outcome `o`. */
  lemma NameInSelectHasOutcome(deps: seq<Pin>, projectDeps: DepMap, cmp: Comparator, o: Outcome, p: Pin)
    requires UniqueNames(deps)
    requires p in deps
    requires p.name in Names(Select(deps, projectDeps, cmp, o))
    ensures Decide(p, projectDeps, cmp) == o
  {
    var s := Select(deps, projectDeps, cmp, o);
    var k :| 0 <= k < |s| && Names(s)[k] == p.name;
    assert s[k] in s;
    SameNameSameEntry(deps, p, s[k]);
  }

  /** Names of the stripped entries are the names of the entries. */
  lemma NamesOfStripped(ps: seq<Pin>)
    ensures Names(Stripped(ps)) == Names(ps)
  {
  }

  /** With unique keys, no key lands in two of the three lists, and a key is in
      a list exactly when its outcome says so. */
  lemma ClassifyMembership(deps: seq<Pin>, projectDeps: DepMap, cmp: Comparator, p: Pin)
    requires UniqueNames(deps)
    requires p in deps
    ensures var plan := Classify(deps, projectDeps, cmp);
            var o := Decide(p, projectDeps, cmp);
            && (p.name in plan.internal <==> o == Internal)
            && (p.name in Names(plan.install) <==> o == Install)
            && (p.name in Names(plan.update) <==> o == Update)
  {
    var plan := Classify(deps, projectDeps, cmp);
    var o := Decide(p, projectDeps, cmp);
    forall t | t in {Internal, Install, Update}
      ensures p.name in Names(Select(deps, projectDeps, cmp, t)) <==> o == t
    {
      var s := Select(deps, projectDeps, cmp, t);
      if o == t {
        var k :| 0 <= k < |s| && s[k] == p;
        assert Names(s)[k] == p.name;
      }
      if p.name in Names(s) {
        NameInSelectHasOutcome(deps, projectDeps, cmp, t, p);
      }
    }
    NamesOfStripped(Select(deps, projectDeps, cmp, Install));
    NamesOfStripped(Select(deps, projectDeps, cmp, Update));
  }

  /** The classification by cases, in both directions: with unique keys, a
      declared key is internal exactly when it is `@qg-`-prefixed and the
      project lacks it or has it lower; to be installed exactly when it is
      public and lacking; to be updated exactly when it is public and lower. */
  lemma ClassifyByCase(deps: seq<Pin>, projectDeps: DepMap, cmp: Comparator, p: Pin)
    requires UniqueNames(deps)
    requires p in deps
    ensures var plan := Classify(deps, projectDeps, cmp);
            var lacking := !Declares(projectDeps, p.name);
            var lower := !lacking && Lower(cmp, projectDeps[p.name], p.version);
            && (p.name in plan.internal <==> IsInternal(p.name) && (lacking || lower))
            && (p.name in Names(plan.install) <==> !IsInternal(p.name) && lacking)
            && (p.name in Names(plan.update) <==> !IsInternal(p.name) && lower)
  {
    ClassifyMembership(deps, projectDeps, cmp, p);
  }

  /** A key the project lacks (absent or empty) goes to the internal list when
      it carries the shared prefix, and otherwise to the install list with its
      required version stripped of carets. */
  lemma AbsentKey(deps: seq<Pin>, projectDeps: DepMap, cmp: Comparator, p: Pin)
    requires p in deps
    requires !Declares(projectDeps, p.name)
    ensures IsInternal(p.name) ==> p.name in Classify(deps, projectDeps, cmp).internal
    ensures !IsInternal(p.name) ==>
              Pin(p.name, StripCarets(p.version)) in Classify(deps, projectDeps, cmp).install
  {
    var o := Decide(p, projectDeps, cmp);
    var s := Select(deps, projectDeps, cmp, o);
    var k :| 0 <= k < |s| && s[k] == p;
    if IsInternal(p.name) {
      assert Names(s)[k] == p.name;
    } else {
      assert Stripped(s)[k] == Pin(p.name, StripCarets(p.version));
    }
  }

  /** A key the project has at a lower version goes to the internal list when
      it carries the shared prefix, and otherwise to the update list. */
  lemma OutdatedKey(deps: seq<Pin>, projectDeps: DepMap, cmp: Comparator, p: Pin)
    requires p in deps
    requires Declares(projectDeps, p.name) && Lower(cmp, projectDeps[p.name], p.version)
    ensures IsInternal(p.name) ==> p.name in Classify(deps, projectDeps, cmp).internal
    ensures !IsInternal(p.name) ==>
              Pin(p.name, StripCarets(p.version)) in Classify(deps, projectDeps, cmp).update
  {
    var o := Decide(p, projectDeps, cmp);
    var s := Select(deps, projectDeps, cmp, o);
    var k :| 0 <= k < |s| && s[k] == p;
    if IsInternal(p.name) {
      assert Names(s)[k] == p.name;
    } else {
      assert Stripped(s)[k] == Pin(p.name, StripCarets(p.version));
    }
  }

  /** A key the project has at a version that is not lower goes into no list. */
  lemma SatisfiedKey(deps: seq<Pin>, projectDeps: DepMap, cmp: Comparator, p: Pin)
    requires UniqueNames(deps)
    requires p in deps
    requires Declares(projectDeps, p.name) && !Lower(cmp, projectDeps[p.name], p.version)
    ensures var plan := Classify(deps, projectDeps, cmp);
            p.name !in plan.internal && p.name !in Names(plan.install) && p.name !in Names(plan.update)
  {
    ClassifyMembership(deps, projectDeps, cmp, p);
  }

  /** Public packages never reach the internal list, shared artifacts never
      reach npm. */
  lemma ClassifySeparatesInternal(deps: seq<Pin>, projectDeps: DepMap, cmp: Comparator)
    ensures var plan := Classify(deps, projectDeps, cmp);
            && (forall n :: n in plan.internal ==> IsInternal(n))
            && (forall p :: p in plan.install ==> !IsInternal(p.name) && !Declares(projectDeps, p.name))
            && (forall p :: p in plan.update ==> !IsInternal(p.name) && Declares(projectDeps, p.name))
  {
    var plan := Classify(deps, projectDeps, cmp);
    forall n | n in plan.internal ensures IsInternal(n) {
      var s := Select(deps, projectDeps, cmp, Internal);
      var k :| 0 <= k < |s| && Names(s)[k] == n;
      assert s[k] in s;
    }
    forall p | p in plan.install ensures !IsInternal(p.name) && !Declares(projectDeps, p.name) {
      var s := Select(deps, projectDeps, cmp, Install);
      var k :| 0 <= k < |s| && Stripped(s)[k] == p;
      assert s[k] in s;
    }
    forall p | p in plan.update ensures !IsInternal(p.name) && Declares(projectDeps, p.name) {
      var s := Select(deps, projectDeps, cmp, Update);
      var k :| 0 <= k < |s| && Stripped(s)[k] == p;
      assert s[k] in s;
    }
  }

  /** `name@version`, one npm package argument. */
  function Spec(p: Pin): string {
    p.name + "@" + p.version
  }

  /** The npm invocation of `_install`: `npm install -S` with the install
      entries followed by the update entries, or none when both are empty. */
  function NpmArgs(plan: Plan): (r: Option<seq<string>>)
    ensures r.Some? <==> plan.install != [] || plan.update != []
    ensures r.Some? ==>
              && |r.value| == 2 + |plan.install| + |plan.update|
              && r.value[..2] == ["install", "-S"]
              && (forall i :: 0 <= i < |plan.install| ==> r.value[2 + i] == Spec(plan.install[i]))
              && (forall i :: 0 <= i < |plan.update| ==>
                    r.value[2 + |plan.install| + i] == Spec(plan.update[i]))
  {
    var total := plan.install + plan.update;
    if |total| > 0 then
      Some(["install", "-S"] + seq(|total|, i requires 0 <= i < |total| => Spec(total[i])))
    else None
  }

  /** An artifact already in the project at exactly the required version
      (after caret deletion) needs nothing, for any comparator that finds a
      version not lower than itself. */
  lemma SameVersionIsSatisfied(dep: Pin, projectDeps: DepMap, cmp: Comparator)
    requires dep.name in projectDeps
    requires projectDeps[dep.name] != ""
    requires StripCarets(projectDeps[dep.name]) == StripCarets(dep.version)
    requires cmp(StripCarets(dep.version), StripCarets(dep.version)) >= 0
    ensures Decide(dep, projectDeps, cmp) == Satisfied
  {
  }
}
