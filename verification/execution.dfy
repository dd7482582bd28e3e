/**
 The stages of `exec` that both runners share once their filesystem probes
 are given: which queued artifacts reach `_install`, how the link registry
 changes, which projects a sync reaches, and how the internal dependencies
 found by the analysis are handed to child runners.
 */
module Execution {
  import opened Wrappers
  import opened Packages
  import opened Links
  import opened Builders

  /** The items for which `keep` holds, in their order, each as often as it
      occurs in `items` (`Array.prototype.filter`, or a `for ... of` loop
      guarded by `keep`). */
  function Where(items: seq<Artifact>, keep: Artifact -> bool): (r: seq<Artifact>)
    ensures |r| <= |items|
    ensures forall a :: a in r <==> a in items && keep(a)
    ensures forall a :: multiset(r)[a] == if keep(a) then multiset(items)[a] else 0
  {
    KeptCounts(items, keep);
    Kept(items, keep)
  }

  /** The filter itself, one item at a time. */
  function Kept(items: seq<Artifact>, keep: Artifact -> bool): seq<Artifact> {
    if items == [] then []
    else (if keep(items[0]) then [items[0]] else []) + Kept(items[1..], keep)
  }

  /** What `Kept` keeps: the satisfying items, with their multiplicities. */
  lemma {:induction false} KeptCounts(items: seq<Artifact>, keep: Artifact -> bool)
    ensures |Kept(items, keep)| <= |items|
    ensures forall a :: a in Kept(items, keep) <==> a in items && keep(a)
    ensures forall a :: multiset(Kept(items, keep))[a] == if keep(a) then multiset(items)[a] else 0
  {
    if items != [] {
      assert items == [items[0]] + items[1..];
      KeptCounts(items[1..], keep);
    }
  }

  /** `Kept` distributes over concatenation. */
  lemma {:induction false} KeptAppend(xs: seq<Artifact>, ys: seq<Artifact>, keep: Artifact -> bool)
    ensures Kept(xs + ys, keep) == Kept(xs, keep) + Kept(ys, keep)
  {
    if xs == [] {
      assert xs + ys == ys;
    } else {
      var head := if keep(xs[0]) then [xs[0]] else [];
      calc {
        Kept(xs + ys, keep);
      == { assert (xs + ys)[0] == xs[0] && (xs + ys)[1..] == xs[1..] + ys; }
        head + Kept(xs[1..] + ys, keep);
      == { KeptAppend(xs[1..], ys, keep); }
        head + (Kept(xs[1..], keep) + Kept(ys, keep));
      ==
        (head + Kept(xs[1..], keep)) + Kept(ys, keep);
      }
    }
  }

  /** Filtering distributes over concatenation, so it keeps the items' order. */
  lemma WhereAppend(xs: seq<Artifact>, ys: seq<Artifact>, keep: Artifact -> bool)
    ensures Where(xs + ys, keep) == Where(xs, keep) + Where(ys, keep)
  {
    KeptAppend(xs, ys, keep);
  }

  /** The queued artifacts that pass the runner's same-named-file decision
      `runs`, in queue order: those `exec` hands to `_install` as long as no
      earlier `_install` throws. */
  function Installed(b: Builder, runs: Artifact -> bool): (r: seq<Artifact>)
    ensures b.install.None? ==> r == []
    ensures forall a :: a in r <==> b.install.Some? && a in b.install.value && runs(a)
    ensures b.install.Some? ==> forall a :: multiset(r)[a] == if runs(a) then multiset(b.install.value)[a] else 0
  {
    if b.install.Some? then Where(b.install.value, runs) else []
  }

  /** The index of the first item for which `fails` holds, or `|xs|` when
      there is none. */
  function FailureIndex(xs: seq<Artifact>, fails: Artifact -> bool): (k: nat)
    ensures k <= |xs|
    ensures k < |xs| ==> fails(xs[k])
    ensures forall j :: 0 <= j < k ==> !fails(xs[j])
  {
    if xs == [] then 0
    else if fails(xs[0]) then 0
    else 1 + FailureIndex(xs[1..], fails)
  }

  /** The prefix of `xs` up to and including the first item for which `fails`
      holds: the awaited calls made before one throws. */
  function ThroughFirstFailure(xs: seq<Artifact>, fails: Artifact -> bool): (r: seq<Artifact>)
    ensures |r| <= |xs| && r == xs[..|r|]
    ensures forall i :: 0 <= i < |r| - 1 ==> !fails(r[i])
    ensures (exists a :: a in xs && fails(a)) <==> r != [] && fails(r[|r| - 1])
    ensures (forall a :: a in xs ==> !fails(a)) ==> r == xs
  {
    var k := FailureIndex(xs, fails);
    if k < |xs| then
      assert xs[k] in xs;
      xs[..k + 1]
    else
      assert forall a :: a in xs ==> !fails(a) by {
        forall a | a in xs ensures !fails(a) {
          var j :| 0 <= j < |xs| && xs[j] == a;
        }
      }
      assert xs[..|xs|] == xs;
      xs
  }

  /** Some `_install` that `exec` reaches throws (a failed internal lookup, or
      any other error), which rejects `exec` before its link and unlink stages. */
  predicate InstallAborts(b: Builder, runs: Artifact -> bool, fails: Artifact -> bool) {
    exists a :: a in Installed(b, runs) && fails(a)
  }

  /** The `_install` calls `exec` makes, in order: the admitted queue up to and
      including the first call that throws. */
  function Attempted(b: Builder, runs: Artifact -> bool, fails: Artifact -> bool): (r: seq<Artifact>)
    ensures |r| <= |Installed(b, runs)| && r == Installed(b, runs)[..|r|]
    ensures InstallAborts(b, runs, fails) <==> r != [] && fails(r[|r| - 1])
    ensures forall i :: 0 <= i < |r| - 1 ==> !fails(r[i])
    ensures !InstallAborts(b, runs, fails) ==> r == Installed(b, runs)
  {
    ThroughFirstFailure(Installed(b, runs), fails)
  }

  /** The names `exec` links: every queued install, but only with link set. */
  function LinkedNames(b: Builder): seq<string> {
    if b.link && b.install.Some? then NamesOf(b.install.value) else []
  }

  /** The names `exec` unlinks. */
  function UnlinkedNames(b: Builder): seq<string> {
    if b.unlink.Some? then NamesOf(b.unlink.value) else []
  }

  /** The projects linked to `n` between the two stages. */
  function AfterLink(b: Builder, reg: Registry, project: string, n: string): set<string> {
    if n in LinkedNames(b) then Projects(reg, n) + {project} else Projects(reg, n)
  }

  /** The link stage, then the unlink stage, as `exec` runs them once every
      `_install` has returned. */
  function LinkStages(b: Builder, reg: Registry, project: string): (r: Registry)
    ensures forall n :: n in LinkedNames(b) && n !in UnlinkedNames(b) ==>
              n in r && r[n] == Projects(reg, n) + {project}
    ensures forall n :: n in UnlinkedNames(b) ==>
              && (n in r <==> (n in reg || n in LinkedNames(b)) && AfterLink(b, reg, project, n) != {project})
              && (n in r ==> r[n] == AfterLink(b, reg, project, n) - {project})
    ensures forall n :: n in reg && n !in LinkedNames(b) && n !in UnlinkedNames(b) ==>
              n in r && r[n] == reg[n]
    ensures forall n :: n in r ==> n in reg || n in LinkedNames(b)
    ensures NoEmptyEntries(reg) ==> NoEmptyEntries(r)
  {
    var linked := if b.link && b.install.Some? then Link(reg, NamesOf(b.install.value), project) else reg;
    if b.unlink.Some? then Unlink(linked, NamesOf(b.unlink.value), project) else linked
  }

  /** The registry after `exec`: unchanged when an `_install` throws, since the
      rejection skips the link and unlink stages; otherwise the project is
      linked to every queued install it does not also unlink, and to no
      unlinked name. */
  function ExecRegistry(b: Builder, reg: Registry, project: string,
                        runs: Artifact -> bool, fails: Artifact -> bool): (r: Registry)
    ensures InstallAborts(b, runs, fails) ==> r == reg
    ensures !InstallAborts(b, runs, fails) ==>
              forall n :: n in LinkedNames(b) && n !in UnlinkedNames(b) ==>
                n in r && r[n] == Projects(reg, n) + {project}
    ensures !InstallAborts(b, runs, fails) ==>
              forall n :: n in UnlinkedNames(b) ==>
                && project !in Projects(r, n)
                && (n in r <==> (n in reg || n in LinkedNames(b)) && AfterLink(b, reg, project, n) != {project})
                && (n in r ==> r[n] == AfterLink(b, reg, project, n) - {project})
    ensures !InstallAborts(b, runs, fails) ==>
              forall n :: n in reg && n !in LinkedNames(b) && n !in UnlinkedNames(b) ==>
                n in r && r[n] == reg[n]
    ensures !InstallAborts(b, runs, fails) ==> forall n :: n in r ==> n in reg || n in LinkedNames(b)
    ensures NoEmptyEntries(reg) ==> NoEmptyEntries(r)
  {
    if InstallAborts(b, runs, fails) then reg else LinkStages(b, reg, project)
  }

  /** Unlinking one project from an artifact shared with another project
      keeps the entry with the other project in it. */
  lemma UnlinkKeepsOtherProjects()
    ensures var x := Artifact("x", "x", "1.0.0", ComKind, []);
            ExecRegistry(WithUnlink(Fresh, [x]), map["x" := {"p", "q"}], "p",
                         (a: Artifact) => true, (a: Artifact) => false)
            == map["x" := {"q"}]
  {
    var x := Artifact("x", "x", "1.0.0", ComKind, []);
    var b := WithUnlink(Fresh, [x]);
    var reg := map["x" := {"p", "q"}];
    var runs := (a: Artifact) => true;
    var fails := (a: Artifact) => false;
    assert b.install.None? && b.unlink == Some([x]) && !b.link;
    assert !InstallAborts(b, runs, fails) by {
      assert Installed(b, runs) == [];
    }
    assert NamesOf([x]) == ["x"];
    assert ["x"][1..] == [];
    assert LinkStages(b, reg, "p") == Unlink(reg, ["x"], "p");
    assert Unlink(reg, ["x"], "p") == Unlink(UnlinkOne(reg, "x", "p"), [], "p");
    assert {"p", "q"} - {"p"} == {"q"};
    assert UnlinkOne(reg, "x", "p") == map["x" := {"q"}];
  }

  /** Linking follows the install queue, not `_install`: a queued artifact
      skipped for a same-named file is still linked, provided no `_install`
      throws. */
  lemma SkippedInstallIsLinked(b: Builder, reg: Registry, project: string,
                               runs: Artifact -> bool, fails: Artifact -> bool, a: Artifact)
    requires b.link && b.install.Some?
    requires a in b.install.value && !runs(a)
    requires a.name !in UnlinkedNames(b)
    requires !InstallAborts(b, runs, fails)
    ensures a !in Attempted(b, runs, fails)
    ensures project in Projects(ExecRegistry(b, reg, project, runs, fails), a.name)
  {
    var k :| 0 <= k < |b.install.value| && b.install.value[k] == a;
    assert NamesOf(b.install.value)[k] == a.name;
  }

  /** `syncList`: the artifacts of the checkout that have a registry entry, in
      list order. */
  function SyncList(list: seq<Artifact>, reg: Registry): (r: seq<Artifact>)
    ensures forall a :: a in r <==> a in list && a.name in reg
    ensures forall a :: multiset(r)[a] == if a.name in reg then multiset(list)[a] else 0
  {
    Where(list, (a: Artifact) => a.name in reg)
  }

  /** The projects a sync of `name` reinstalls into; `None` when the artifact
      has no registry entry, where `_sync` fails reading its project table. */
  function SyncTargets(reg: Registry, name: string): (r: Option<set<string>>)
    ensures r.Some? <==> name in reg
    ensures r.Some? ==> forall p :: p in r.value <==> p in Projects(reg, name)
  {
    if name in reg then Some(reg[name]) else None
  }

  /** Every artifact offered for sync has projects to sync to; after `exec`
      with a non-empty registry entry these are exactly the linked projects. */
  lemma SyncListHasTargets(list: seq<Artifact>, reg: Registry, a: Artifact)
    requires a in SyncList(list, reg)
    ensures SyncTargets(reg, a.name).Some?
  {
  }

  /** Which runner handles an internal dependency. */
  datatype RunnerKind = ComRunnerKind | BlockRunnerKind

  /** One child runner started for an internal dependency. */
  datatype ChildRun = ChildRun(runner: RunnerKind, builder: Builder)

  /** The child runs started, in order, and the name whose lookup failed and
      stopped the loop, if one did. */
  datatype Dispatch = Dispatch(runs: seq<ChildRun>, missing: Option<string>)

  /** The internal-dependency loop of `_install`: for each name, pick the
      runner, look the name up in that runner's list, and run a child that
      installs it; a failed lookup throws, so later names are not reached. */
  function DispatchAll(internal: seq<string>, kindOf: string -> RunnerKind,
                       lookup: string -> Option<Artifact>, parent: Builder): (d: Dispatch)
    ensures |d.runs| <= |internal|
    ensures d.missing.None? <==> |d.runs| == |internal|
    ensures d.missing.Some? ==>
              d.missing.value == internal[|d.runs|] && lookup(internal[|d.runs|]).None?
    ensures forall i :: 0 <= i < |d.runs| ==>
              && lookup(internal[i]).Some?
              && d.runs[i] == ChildRun(kindOf(internal[i]), ChildBuilder(parent, lookup(internal[i]).value))
  {
    DispatchedRuns(internal, kindOf, lookup, parent);
    Dispatched(internal, kindOf, lookup, parent)
  }

  /** The loop itself, one name at a time. */
  function Dispatched(internal: seq<string>, kindOf: string -> RunnerKind,
                      lookup: string -> Option<Artifact>, parent: Builder): Dispatch
  {
    if internal == [] then Dispatch([], None)
    else
      match lookup(internal[0])
      case None => Dispatch([], Some(internal[0]))
      case Some(target) =>
        var rest := Dispatched(internal[1..], kindOf, lookup, parent);
        Dispatch([ChildRun(kindOf(internal[0]), ChildBuilder(parent, target))] + rest.runs, rest.missing)
  }

  /** What the loop yields: one run per name reached, and the failed name. */
  lemma {:induction false} DispatchedRuns(internal: seq<string>, kindOf: string -> RunnerKind,
                                          lookup: string -> Option<Artifact>, parent: Builder)
    ensures var d := Dispatched(internal, kindOf, lookup, parent);
            && |d.runs| <= |internal|
            && (d.missing.None? <==> |d.runs| == |internal|)
            && (d.missing.Some? ==>
                  d.missing.value == internal[|d.runs|] && lookup(internal[|d.runs|]).None?)
            && forall i :: 0 <= i < |d.runs| ==>
                 && lookup(internal[i]).Some?
                 && d.runs[i] == ChildRun(kindOf(internal[i]), ChildBuilder(parent, lookup(internal[i]).value))
  {
    if internal != [] && lookup(internal[0]).Some? {
      var rest := Dispatched(internal[1..], kindOf, lookup, parent);
      DispatchedRuns(internal[1..], kindOf, lookup, parent);
      var d := Dispatched(internal, kindOf, lookup, parent);
      assert d.runs == [ChildRun(kindOf(internal[0]), ChildBuilder(parent, lookup(internal[0]).value))] + rest.runs;
      assert d.missing == rest.missing;
      forall i | 1 <= i < |d.runs|
        ensures lookup(internal[i]).Some?
        ensures d.runs[i] == ChildRun(kindOf(internal[i]), ChildBuilder(parent, lookup(internal[i]).value))
      {
        assert d.runs[i] == rest.runs[i - 1];
        assert internal[i] == internal[1..][i - 1];
      }
      if d.missing.Some? {
        assert internal[|d.runs|] == internal[1..][|rest.runs|];
      }
    }
  }
}
