/**
 The shared artifacts a runner installs (components, utilities and page
 blocks), the lists a runner reads from a checkout, and the version map it
 builds from the artifacts already present in a project.
 */
module Packages {
  import opened Wrappers

  /** One entry of a package.json dependency map. */
  datatype Pin = Pin(name: string, version: string)

  /** The artifact kinds: `com` and `util` for the component runner,
      `block` for the block runner. */
  datatype Kind = ComKind | UtilKind | BlockKind

  /** An artifact as read from its package.json; `dependencies` keeps the
      declaration order, which is the order in which it is analysed. */
  datatype Artifact = Artifact(
    name: string,
    shortName: string,
    version: string,
    kind: Kind,
    dependencies: seq<Pin>)

  /** No two entries of a declared dependency map share a key, as for the
      keys of a JavaScript object. */
  predicate UniqueNames(deps: seq<Pin>) {
    forall i, j :: 0 <= i < j < |deps| ==> deps[i].name != deps[j].name
  }

  /** The names of the artifacts, in list order. */
  function NamesOf(items: seq<Artifact>): seq<string> {
    seq(|items|, i requires 0 <= i < |items| => items[i].name)
  }

  /** The set of names of the artifacts. */
  function NameSet(list: seq<Artifact>): set<string> {
    set a | a in list :: a.name
  }

  /** No later artifact of `list` has the name of the one at index `i`. */
  predicate LastWithName(list: seq<Artifact>, i: int)
    requires 0 <= i < |list|
  {
    forall j :: i < j < |list| ==> list[j].name != list[i].name
  }

  /** The map from each artifact name to `^` followed by its version, built by
      folding the list left to right, so a later artifact with the same name
      overrides an earlier one (getProjectComDeps / getProjectBlockDeps). */
  function VersionMap(list: seq<Artifact>): (m: map<string, string>)
    ensures m.Keys == NameSet(list)
    ensures forall i :: 0 <= i < |list| && LastWithName(list, i) ==>
              m[list[i].name] == "^" + list[i].version
  {
    if list == [] then map[]
    else
      var init := list[..|list| - 1];
      var last := list[|list| - 1];
      assert list == init + [last];
      NameSetSnoc(init, last);
      assert forall i :: 0 <= i < |init| && LastWithName(list, i) ==>
               LastWithName(init, i) && list[i] == init[i] && init[i].name != last.name;
      VersionMap(init)[last.name := "^" + last.version]
  }

  /** Appending an artifact adds its name to the name set. */
  lemma NameSetSnoc(init: seq<Artifact>, last: Artifact)
    ensures NameSet(init + [last]) == NameSet(init) + {last.name}
  {
    assert forall a :: a in init + [last] <==> a in init || a == last;
  }

  /** The index of the first artifact of `list` called `name`, or `|list|`
      when there is none (`Array.prototype.findIndex`, with -1 as `|list|`). */
  function FindIndex(list: seq<Artifact>, name: string): (k: nat)
    ensures k <= |list|
    ensures k < |list| ==> list[k].name == name
    ensures forall j :: 0 <= j < k ==> list[j].name != name
  {
    if list == [] then 0
    else if list[0].name == name then 0
    else 1 + FindIndex(list[1..], name)
  }

  /** The first artifact of `list` called `name` (`Array.prototype.find`). */
  function Find(list: seq<Artifact>, name: string): (r: Option<Artifact>)
    ensures r.None? <==> forall a :: a in list ==> a.name != name
    ensures r.Some? ==> r.value.name == name && r.value in list
    ensures r.Some? ==> exists i :: 0 <= i < |list| && list[i] == r.value &&
                           forall j :: 0 <= j < i ==> list[j].name != name
  {
    var k := FindIndex(list, name);
    if k < |list| then Some(list[k]) else None
  }
}
