/**
 The link registry kept in the runner's configuration: for each shared
 artifact, the set of project paths that use it. `exec` adds the current
 project for every installed artifact (link) and removes it for every
 unlinked one, dropping an artifact's entry once no project is left.
 */
module Links {

  /** Artifact name to the set of linked project paths (`config.links[name].project`). */
  type Registry = map<string, set<string>>

  /** The projects linked to `name`, none when it has no entry. */
  function Projects(reg: Registry, name: string): set<string> {
    if name in reg then reg[name] else {}
  }

  /** No entry with an empty project set. */
  predicate NoEmptyEntries(reg: Registry) {
    forall name :: name in reg ==> reg[name] != {}
  }

  /** One step of the link loop: create the entry if needed, then add the project. */
  function LinkOne(reg: Registry, name: string, project: string): Registry {
    reg[name := Projects(reg, name) + {project}]
  }

  /** One step of the unlink loop: when the project is linked to `name`, remove
      it, and delete the entry if no project remains; otherwise change nothing. */
  function UnlinkOne(reg: Registry, name: string, project: string): Registry {
    if name in reg && project in reg[name] then
      if reg[name] - {project} == {} then reg - {name}
      else reg[name := reg[name] - {project}]
    else reg
  }

  /** Link the project to every name of `names`, in order. */
  function Link(reg: Registry, names: seq<string>, project: string): (r: Registry)
    ensures r.Keys == reg.Keys + set n | n in names
    ensures forall n :: n in names ==> r[n] == Projects(reg, n) + {project}
    ensures forall n :: n in reg && n !in names ==> r[n] == reg[n]
    ensures NoEmptyEntries(reg) ==> NoEmptyEntries(r)
    decreases names
  {
    if names == [] then reg
    else
      var one := LinkOne(reg, names[0], project);
      assert one.Keys == reg.Keys + {names[0]};
      assert forall n :: n in names <==> n == names[0] || n in names[1..];
      Link(one, names[1..], project)
  }

  /** Unlink the project from every name of `names`, in order. */
  function Unlink(reg: Registry, names: seq<string>, project: string): (r: Registry)
    ensures r.Keys <= reg.Keys
    ensures forall n :: n in reg && n !in names ==> n in r && r[n] == reg[n]
    ensures forall n :: n in names && n in reg ==>
              (n in r <==> reg[n] != {project}) &&
              (n in r ==> r[n] == reg[n] - {project})
    ensures NoEmptyEntries(reg) ==> NoEmptyEntries(r)
    decreases names
  {
    if names == [] then reg
    else
      var one := UnlinkOne(reg, names[0], project);
      assert one.Keys <= reg.Keys;
      assert forall n :: n in reg && n != names[0] ==> n in one && one[n] == reg[n];
      assert forall n :: n in names <==> n == names[0] || n in names[1..];
      Unlink(one, names[1..], project)
  }

  /** After unlinking, the project is linked to none of the unlinked names. */
  lemma UnlinkRemovesProject(reg: Registry, names: seq<string>, project: string)
    ensures forall n :: n in names ==> project !in Projects(Unlink(reg, names, project), n)
  {
  }

  /** Unlinking what was just linked restores the registry, provided it had no
      empty entries and the project was not yet linked to those names. */
  lemma UnlinkUndoesLink(reg: Registry, names: seq<string>, project: string)
    requires NoEmptyEntries(reg)
    requires forall n :: n in names ==> project !in Projects(reg, n)
    ensures Unlink(Link(reg, names, project), names, project) == reg
  {
    var r := Unlink(Link(reg, names, project), names, project);
    forall n
      ensures n in r <==> n in reg
      ensures n in r ==> r[n] == reg[n]
    {
      UndoneAt(reg, names, project, n);
    }
    SameEntries(r, reg);
  }

  /** Two registries with the same entries are equal. */
  lemma SameEntries(a: Registry, b: Registry)
    requires forall n :: n in a <==> n in b
    requires forall n :: n in a ==> a[n] == b[n]
    ensures a == b
  {
    assert a.Keys == b.Keys;
  }

  /** The entry of one name after linking and unlinking `names`. */
  lemma UndoneAt(reg: Registry, names: seq<string>, project: string, n: string)
    requires NoEmptyEntries(reg)
    requires n in names ==> project !in Projects(reg, n)
    ensures var r := Unlink(Link(reg, names, project), names, project);
            (n in r <==> n in reg) && (n in r ==> r[n] == reg[n])
  {
    var linked := Link(reg, names, project);
    if n in names {
      assert n in linked && linked[n] == Projects(reg, n) + {project};
      if n in reg {
        assert reg[n] != {} && project !in reg[n];
        assert linked[n] != {project} by {
          var x :| x in reg[n];
          assert x != project && x in linked[n];
        }
        assert linked[n] - {project} == reg[n];
      } else {
        assert linked[n] == {project};
      }
    }
  }

  /** Linking twice is linking once. */
  lemma LinkIdempotent(reg: Registry, names: seq<string>, project: string)
    ensures Link(Link(reg, names, project), names, project) == Link(reg, names, project)
  {
  }

  /** Unlinking twice is unlinking once. */
  lemma UnlinkIdempotent(reg: Registry, names: seq<string>, project: string)
    ensures Unlink(Unlink(reg, names, project), names, project) == Unlink(reg, names, project)
  {
    var once := Unlink(reg, names, project);
    var twice := Unlink(once, names, project);
    forall n | n in names && n in once
      ensures n in twice && twice[n] == once[n]
    {
      assert project !in once[n];
    }
  }
}
