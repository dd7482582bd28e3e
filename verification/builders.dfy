/**
 The builder a runner accumulates through its chained calls before `exec`,
 the child builder a runner hands to the runner of an internal dependency,
 and the commit message `_install` uses when committing is requested.
 */
module Builders {
  import opened Wrappers
  import opened Packages

  /** A request to commit after installing, with the user's message if any. */
  datatype CommitRequest = CommitRequest(message: Option<string>)

  /** The builder state; `None` stands for a field never set. */
  datatype Builder = Builder(
    save: bool,
    install: Option<seq<Artifact>>,
    sync: Option<seq<Artifact>>,
    link: bool,
    unlink: Option<seq<Artifact>>,
    commit: Option<CommitRequest>,
    overwrite: bool)

  /** The builder of a freshly constructed runner. */
  const Fresh: Builder := Builder(false, None, None, false, None, None, false)

  /** `install(items)`: append to the install list, creating it if needed. */
  function WithInstall(b: Builder, items: seq<Artifact>): (r: Builder)
    ensures r.install.Some? && |r.install.value| == |b.install.GetOr([])| + |items|
    ensures b.install.Some? ==> r.install.value[..|b.install.value|] == b.install.value
    ensures r.install.value[|r.install.value| - |items|..] == items
    ensures r.(install := b.install) == b
  {
    b.(install := Some(b.install.GetOr([]) + items))
  }

  /** `sync(items)`: append to the sync list, creating it if needed. */
  function WithSync(b: Builder, items: seq<Artifact>): (r: Builder)
    ensures r.sync.Some? && |r.sync.value| == |b.sync.GetOr([])| + |items|
    ensures b.sync.Some? ==> r.sync.value[..|b.sync.value|] == b.sync.value
    ensures r.sync.value[|r.sync.value| - |items|..] == items
    ensures r.(sync := b.sync) == b
  {
    b.(sync := Some(b.sync.GetOr([]) + items))
  }

  /** `unlink(items)`: append to the unlink list, creating it if needed. */
  function WithUnlink(b: Builder, items: seq<Artifact>): (r: Builder)
    ensures r.unlink.Some? && |r.unlink.value| == |b.unlink.GetOr([])| + |items|
    ensures b.unlink.Some? ==> r.unlink.value[..|b.unlink.value|] == b.unlink.value
    ensures r.unlink.value[|r.unlink.value| - |items|..] == items
    ensures r.(unlink := b.unlink) == b
  {
    b.(unlink := Some(b.unlink.GetOr([]) + items))
  }

  /** Appending in two calls is appending once: the builder lists keep call order. */
  lemma WithInstallTwice(b: Builder, xs: seq<Artifact>, ys: seq<Artifact>)
    ensures WithInstall(WithInstall(b, xs), ys) == WithInstall(b, xs + ys)
  {
    assert b.install.GetOr([]) + xs + ys == b.install.GetOr([]) + (xs + ys);
  }

  /** `save()`: ask `exec` to persist the configuration; nothing else changes. */
  function WithSave(b: Builder): (r: Builder)
    ensures r.save
    ensures r.(save := b.save) == b
  {
    b.(save := true)
  }

  /** `link()`: ask `exec` to link the installed artifacts; nothing else changes. */
  function WithLink(b: Builder): (r: Builder)
    ensures r.link
    ensures r.(link := b.link) == b
  {
    b.(link := true)
  }

  /** `overwrite()`: install over same-named files; nothing else changes. */
  function WithOverwrite(b: Builder): (r: Builder)
    ensures r.overwrite
    ensures r.(overwrite := b.overwrite) == b
  {
    b.(overwrite := true)
  }

  /** `commit(message)`: request a commit with this message, replacing any
      earlier request; nothing else changes. */
  function WithCommit(b: Builder, message: Option<string>): (r: Builder)
    ensures r.commit == Some(CommitRequest(message))
    ensures r.(commit := b.commit) == b
  {
    b.(commit := Some(CommitRequest(message)))
  }

  /** Of two `commit` calls only the later one's message is kept. */
  lemma WithCommitLastWins(b: Builder, first: Option<string>, second: Option<string>)
    ensures WithCommit(WithCommit(b, first), second) == WithCommit(b, second)
  {
  }

  /** The flag setters may be called in any order and any number of times:
      each only switches its own flag on. */
  lemma FlagSettersCommute(b: Builder)
    ensures WithSave(WithLink(WithOverwrite(b))) == WithOverwrite(WithLink(WithSave(b)))
    ensures WithSave(WithSave(b)) == WithSave(b)
    ensures WithLink(WithLink(b)) == WithLink(b)
    ensures WithOverwrite(WithOverwrite(b)) == WithOverwrite(b)
  {
  }

  /** The builder given to the runner of an internal dependency: a fresh
      runner, switched to overwrite when the parent's builder is, then asked to
      install the one target. */
  function ChildBuilder(parent: Builder, target: Artifact): (r: Builder)
    ensures r.overwrite <==> parent.overwrite
    ensures r.install == Some([target])
    ensures !r.link && !r.save && r.commit.None? && r.sync.None? && r.unlink.None?
  {
    var runner := if parent.overwrite then WithOverwrite(Fresh) else Fresh;
    WithInstall(runner, [target])
  }

  /** Why `_install` runs: from `exec` (install) or from a sync (update). */
  datatype Action = InstallAction | UpdateAction

  function ActionWord(a: Action): string {
    match a
    case InstallAction => "install"
    case UpdateAction => "update"
  }

  /** The message of the automatic commit: none when no commit was requested;
      the user's message when it is non-empty; otherwise
      `chore(<scope>): <action> <name>`. */
  function CommitMessage(scope: string, commit: Option<CommitRequest>, action: Action, name: string): (r: Option<string>)
    ensures r.Some? <==> commit.Some?
    ensures commit.Some? && commit.value.message.Some? && commit.value.message.value != "" ==>
              r == commit.value.message
    ensures commit.Some? && (commit.value.message.None? || commit.value.message.value == "") ==>
              && "chore(" + scope + "): " <= r.value
              && |name| <= |r.value|
              && r.value[|r.value| - |name|..] == name
  {
    match commit
    case None => None
    case Some(req) =>
      if req.message.Some? && req.message.value != "" then req.message
      else Some("chore(" + scope + "): " + ActionWord(action) + " " + name)
  }
}
