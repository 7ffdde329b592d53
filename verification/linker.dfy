/** Dependency linking (the second half of devEnvInstaller.ts): the setup
    of the repository roots (link registration, install, typings) and the
    replacement of installed dependencies by links to sibling repositories,
    indirectly through `npm link` or directly through symbolic links. Each
    phase is a plan of steps; running a plan performs its commands in order
    and stops at the first exception, as the original's `throw` does. */
module Linker {
  import opened Wrappers
  import opened Strings
  import opened JsValues
  import opened Paths
  import opened Commands
  import opened ModuleDetector
  import opened Materializer

  // ---------------------------------------------------------------------------
  // Plans and their execution
  // ---------------------------------------------------------------------------

  /** The exceptions that stop the setup. */
  datatype SetupError =
    | RegisterFailed(root: string)             // "npm link" failed in a root
    | InstallFailed(root: string)              // "npm install" failed in a root
    | TypingsFailed(root: string)              // "typings install" failed in a root
    | InvalidManifest(root: string)            // a root's package.json is not valid JSON
    | LinkFailed(name: string, dir: string)    // "npm link <name>" failed in a node_modules folder
    | MissingGitUrl(name: string)              // a listed module has no git URL

  /** The message of the exception, as the original words it. */
  function Message(e: SetupError): string
  {
    match e
    case RegisterFailed(root) => "Could not npm link " + root
    case InstallFailed(root) => "Could not npm install " + root
    case TypingsFailed(root) => "Could not install typings " + root
    case InvalidManifest(root) => "SyntaxError: invalid package.json in " + root
    case LinkFailed(name, dir) => "Could not npm link " + name + " in " + dir
    case MissingGitUrl(name) => "TypeError: gitUrl of " + name + " is undefined"
  }

  datatype Step =
    | Effect(action: Action)                        // performed; nothing is checked
    | Checked(action: Action, error: SetupError)    // performed; a non-zero exit throws `error`
    | Throw(error: SetupError)                      // an exception raised without a command

  predicate Fails(s: Step, exitOf: Action -> int)
  {
    s.Throw? || (s.Checked? && exitOf(s.action) != 0)
  }

  function ActionsOf(s: Step): seq<Action>
  {
    if s.Throw? then [] else [s.action]
  }

  /** Every command a plan holds, as if nothing failed. */
  function PlanActions(plan: seq<Step>): seq<Action>
    decreases |plan|
  {
    if |plan| == 0 then [] else ActionsOf(plan[0]) + PlanActions(plan[1..])
  }

  lemma {:induction false} PlanActionsAppend(a: seq<Step>, b: seq<Step>)
    ensures PlanActions(a + b) == PlanActions(a) + PlanActions(b)
    decreases |a|
  {
    if |a| == 0 {
      assert a + b == b;
    } else {
      assert (a + b)[0] == a[0];
      assert (a + b)[1..] == a[1..] + b;
      PlanActionsAppend(a[1..], b);
    }
  }

  /** The commands performed, and the exception that ended the run. */
  datatype SetupRun = SetupRun(actions: seq<Action>, failure: Option<string>)

  predicate FirstFailureAt(plan: seq<Step>, exitOf: Action -> int, k: int)
  {
    0 <= k < |plan| && Fails(plan[k], exitOf) && forall j | 0 <= j < k :: !Fails(plan[j], exitOf)
  }

  lemma PlanActionsSingle(x: Step)
    ensures PlanActions([x]) == ActionsOf(x)
  {
    assert [x][1..] == [];
    assert PlanActions([x]) == ActionsOf(x) + PlanActions([]);
  }

  lemma PlanActionsPair(x: Step, y: Step)
    ensures PlanActions([x, y]) == ActionsOf(x) + ActionsOf(y)
  {
    assert [x, y][1..] == [y];
    assert PlanActions([x, y]) == ActionsOf(x) + PlanActions([y]);
    PlanActionsSingle(y);
  }

  /** Failing first at `k` after a step that does not fail. */
  lemma {:induction false} FailureShifts(plan: seq<Step>, exitOf: Action -> int, k: int)
    requires |plan| > 0 && !Fails(plan[0], exitOf) && FirstFailureAt(plan[1..], exitOf, k)
    ensures FirstFailureAt(plan, exitOf, k + 1)
    ensures PlanActions(plan[..k + 2]) == ActionsOf(plan[0]) + PlanActions(plan[1..][..k + 1])
  {
    assert plan[..k + 2] == [plan[0]] + plan[1..][..k + 1];
    PlanActionsAppend([plan[0]], plan[1..][..k + 1]);
    assert [plan[0]][1..] == [];
    forall j | 1 <= j < k + 1 ensures !Fails(plan[j], exitOf) {
      assert plan[j] == plan[1..][j - 1];
    }
  }

  /** Performs the plan's commands in order up to and including the first
      one that fails; a failure's exception ends the run. */
  function RunPlan(plan: seq<Step>, exitOf: Action -> int): SetupRun
    decreases |plan|
  {
    if |plan| == 0 then SetupRun([], None)
    else if Fails(plan[0], exitOf) then SetupRun(ActionsOf(plan[0]), Some(Message(plan[0].error)))
    else
      var rest := RunPlan(plan[1..], exitOf);
      SetupRun(ActionsOf(plan[0]) + rest.actions, rest.failure)
  }

  /** A run performs a prefix of the plan's commands: all of them when no
      step fails, and otherwise those up to the first failing step, whose
      exception it reports. */
  lemma {:induction false} RunPlanFacts(plan: seq<Step>, exitOf: Action -> int)
    ensures var r := RunPlan(plan, exitOf);
      && r.actions <= PlanActions(plan)
      && (r.failure.None? <==> forall k | 0 <= k < |plan| :: !Fails(plan[k], exitOf))
      && (r.failure.None? ==> r.actions == PlanActions(plan))
      && (r.failure.Some? ==>
            exists k :: FirstFailureAt(plan, exitOf, k) && r.failure == Some(Message(plan[k].error)) && r.actions == PlanActions(plan[..k + 1]))
    decreases |plan|
  {
    if |plan| > 0 {
      var s := plan[0];
      var r := RunPlan(plan, exitOf);
      assert [s][1..] == [];
      assert PlanActions(plan) == ActionsOf(s) + PlanActions(plan[1..]);
      if Fails(s, exitOf) {
        assert r == SetupRun(ActionsOf(s), Some(Message(s.error)));
        assert plan[..1] == [s];
        PlanActionsSingle(s);
        assert FirstFailureAt(plan, exitOf, 0) && r.failure == Some(Message(plan[0].error)) && r.actions == PlanActions(plan[..1]);
      } else {
        var rest := RunPlan(plan[1..], exitOf);
        assert r == SetupRun(ActionsOf(s) + rest.actions, rest.failure);
        RunPlanFacts(plan[1..], exitOf);
        assert (forall k | 0 <= k < |plan| :: !Fails(plan[k], exitOf)) <==>
               (forall k | 0 <= k < |plan[1..]| :: !Fails(plan[1..][k], exitOf)) by {
          assert forall k | 1 <= k < |plan| :: plan[k] == plan[1..][k - 1];
        }
        if rest.failure.Some? {
          var k :| FirstFailureAt(plan[1..], exitOf, k) && rest.failure == Some(Message(plan[1..][k].error))
            && rest.actions == PlanActions(plan[1..][..k + 1]);
          FailureShifts(plan, exitOf, k);
          assert plan[k + 1] == plan[1..][k];
          assert FirstFailureAt(plan, exitOf, k + 1) && r.failure == Some(Message(plan[k + 1].error))
            && r.actions == PlanActions(plan[..k + 2]);
        }
      }
    }
  }

  /** Running two plans one after the other is running their
      concatenation: the second starts only if the first did not fail. */
  lemma {:induction false} RunPlanAppend(a: seq<Step>, b: seq<Step>, exitOf: Action -> int)
    ensures var ra := RunPlan(a, exitOf);
      RunPlan(a + b, exitOf) ==
        if ra.failure.Some? then ra
        else SetupRun(ra.actions + RunPlan(b, exitOf).actions, RunPlan(b, exitOf).failure)
    decreases |a|
  {
    if |a| == 0 {
      assert a + b == b;
    } else {
      var ab := a + b;
      assert ab[0] == a[0];
      assert ab[1..] == a[1..] + b;
      if !Fails(a[0], exitOf) {
        RunPlanAppend(a[1..], b, exitOf);
      }
    }
  }

  /** The steps of one repository root, for every root in turn. */
  function PerRoot(roots: seq<string>, steps: string -> seq<Step>): seq<Step>
    decreases |roots|
  {
    if |roots| == 0 then [] else steps(roots[0]) + PerRoot(roots[1..], steps)
  }

  /** A command of a per-root plan is a command of some root's steps. */
  lemma {:induction false} PerRootActions(roots: seq<string>, steps: string -> seq<Step>, a: Action)
    ensures a in PlanActions(PerRoot(roots, steps)) <==>
      exists j | 0 <= j < |roots| :: a in PlanActions(steps(roots[j]))
    decreases |roots|
  {
    if |roots| > 0 {
      PlanActionsAppend(steps(roots[0]), PerRoot(roots[1..], steps));
      PerRootActions(roots[1..], steps, a);
      if exists j | 0 <= j < |roots[1..]| :: a in PlanActions(steps(roots[1..][j])) {
        var j :| 0 <= j < |roots[1..]| && a in PlanActions(steps(roots[1..][j]));
        assert roots[j + 1] == roots[1..][j];
      }
      if exists j | 0 <= j < |roots| :: a in PlanActions(steps(roots[j])) {
        var j :| 0 <= j < |roots| && a in PlanActions(steps(roots[j]));
        if j > 0 {
          assert roots[1..][j - 1] == roots[j];
        }
      }
    }
  }

  // ---------------------------------------------------------------------------
  // What a repository root looks like when a phase reads it
  // ---------------------------------------------------------------------------

  /** A root's package.json: missing, not valid JSON, or its `name` and its
      two dependency maps (None when absent). */
  datatype RepoManifest =
    | NoManifest
    | Unparsable
    | Parsed(name: Option<string>, dependencies: Option<map<string, string>>,
             optionalDependencies: Option<map<string, string>>)

  /** A repository root as the linking phases see it (after the install
      phase): its manifest and, if present, its node_modules folders. */
  datatype Repo = Repo(manifest: RepoManifest, hasNodeModules: bool, nodeModules: seq<Dir>)

  function ManifestName(m: RepoManifest): Option<string>
  {
    if m.Parsed? then m.name else None
  }

  // ---------------------------------------------------------------------------
  // The phases
  // ---------------------------------------------------------------------------

  /** registerNPMModules, for one root. */
  function RegisterSteps(root: string): seq<Step>
  {
    [Checked(Exec("npm link", root), RegisterFailed(root))]
  }

  /** npmInstall, for one root. */
  function InstallSteps(root: string): seq<Step>
  {
    [Checked(Exec("npm install", root), InstallFailed(root))]
  }

  /** installTypings, for one root: the root is matched to a declared
      module (a package.json that is not valid JSON throws while reading
      its name) and "typings install" runs when that module asks for it. */
  function TypingsSteps(root: string, table: ModuleTable, repoOf: string -> Repo): seq<Step>
  {
    if repoOf(root).manifest.Unparsable? then [Throw(InvalidManifest(root))]
    else
      match ModuleFromFolder(BaseName(root), ManifestName(repoOf(root).manifest), table.byName.Keys)
      case None => []
      case Some(m) =>
        if Truthy(table.byName[m].info.installTypings)
        then [Checked(Exec("typings install", root), TypingsFailed(root))]
        else []
  }

  /** A node_modules entry the indirect strategy replaces: a real folder
      (its canonical path is its own path) that matches a declared module. */
  predicate Replaced(nodeModules: string, sub: Dir, declared: set<string>)
  {
    var path := Join(nodeModules, sub.name);
    sub.realPath == path && ModuleFromFolder(BaseName(path), sub.manifestName, declared).Some?
  }

  /** One entry of replaceDependenciesWithLinks: a replaced entry is deleted
      and re-created by `npm link <module>` run in node_modules. */
  function LinkEntry(nodeModules: string, sub: Dir, declared: set<string>): seq<Step>
  {
    var path := Join(nodeModules, sub.name);
    if sub.realPath != path then []
    else match ModuleFromFolder(BaseName(path), sub.manifestName, declared)
      case None => []
      case Some(m) => [Effect(RemoveTree(path)),
                       Checked(Exec("npm link " + m, nodeModules), LinkFailed(m, nodeModules))]
  }

  /** The phase a command belongs to: registration, install, typings, or
      link replacement. */
  function PhaseOf(a: Action): nat
  {
    match a
    case Exec(line, _) =>
      if line == "npm link" then 0
      else if line == "npm install" then 1
      else if line == "typings install" then 2
      else 3
    case _ => 3
  }

  predicate AllInPhase(s: seq<Action>, p: nat)
  {
    forall a | a in s :: PhaseOf(a) == p
  }

  predicate NoSymlink(s: seq<Action>)
  {
    forall a | a in s :: !a.Symlink?
  }

  /** "npm link <module>" is a link-replacement command, not a registration. */
  lemma NamedLinkPhase(m: string, dir: string)
    ensures PhaseOf(Exec("npm link " + m, dir)) == 3
  {
    var line := "npm link " + m;
    assert line[4] == 'l';
    assert |line| != |"npm link"|;
  }

  /** Entry `sub` is replaced, and `p` is its path. */
  predicate RemovedEntry(nodeModules: string, sub: Dir, declared: set<string>, p: string)
  {
    Replaced(nodeModules, sub, declared) && p == Join(nodeModules, sub.name)
  }

  lemma LinkEntryActions(nodeModules: string, sub: Dir, declared: set<string>, p: string)
    ensures var acts := PlanActions(LinkEntry(nodeModules, sub, declared));
      && (RemoveTree(p) in acts <==> RemovedEntry(nodeModules, sub, declared, p))
      && AllInPhase(acts, 3) && NoSymlink(acts)
  {
    var path := Join(nodeModules, sub.name);
    if Replaced(nodeModules, sub, declared) {
      var m := ModuleFromFolder(BaseName(path), sub.manifestName, declared).value;
      PlanActionsPair(Effect(RemoveTree(path)),
                      Checked(Exec("npm link " + m, nodeModules), LinkFailed(m, nodeModules)));
      NamedLinkPhase(m, nodeModules);
    }
  }

  /** The loop of replaceDependenciesWithLinks over one node_modules folder. */
  function LinkEntries(nodeModules: string, subs: seq<Dir>, declared: set<string>): seq<Step>
    decreases |subs|
  {
    if |subs| == 0 then []
    else LinkEntry(nodeModules, subs[0], declared) + LinkEntries(nodeModules, subs[1..], declared)
  }

  /** Exactly the replaced entries are deleted. */
  lemma {:induction false} LinkEntriesRemovals(nodeModules: string, subs: seq<Dir>, declared: set<string>, p: string)
    ensures RemoveTree(p) in PlanActions(LinkEntries(nodeModules, subs, declared)) <==>
      exists k | 0 <= k < |subs| :: RemovedEntry(nodeModules, subs[k], declared, p)
    decreases |subs|
  {
    if |subs| > 0 {
      var rest := subs[1..];
      PlanActionsAppend(LinkEntry(nodeModules, subs[0], declared), LinkEntries(nodeModules, rest, declared));
      LinkEntryActions(nodeModules, subs[0], declared, p);
      LinkEntriesRemovals(nodeModules, rest, declared, p);
      if exists k | 0 <= k < |rest| :: RemovedEntry(nodeModules, rest[k], declared, p) {
        var k :| 0 <= k < |rest| && RemovedEntry(nodeModules, rest[k], declared, p);
        assert subs[k + 1] == rest[k];
      }
      if exists k | 0 <= k < |subs| :: RemovedEntry(nodeModules, subs[k], declared, p) {
        var k :| 0 <= k < |subs| && RemovedEntry(nodeModules, subs[k], declared, p);
        if k > 0 {
          assert rest[k - 1] == subs[k];
        }
      }
    }
  }

  /** Every command is a link replacement, and none is a symlink. */
  lemma {:induction false} LinkEntriesKinds(nodeModules: string, subs: seq<Dir>, declared: set<string>)
    ensures AllInPhase(PlanActions(LinkEntries(nodeModules, subs, declared)), 3)
    ensures NoSymlink(PlanActions(LinkEntries(nodeModules, subs, declared)))
    decreases |subs|
  {
    if |subs| > 0 {
      PlanActionsAppend(LinkEntry(nodeModules, subs[0], declared), LinkEntries(nodeModules, subs[1..], declared));
      LinkEntryActions(nodeModules, subs[0], declared, "");
      LinkEntriesKinds(nodeModules, subs[1..], declared);
    }
  }

  /** The entries the indirect strategy walks: a missing node_modules is
      created (the original's `fs.mkdir` is asynchronous; the model reads
      the new folder as empty). */
  function Entries(repo: Repo): seq<Dir>
  {
    if repo.hasNodeModules then repo.nodeModules else []
  }

  function MakeMissing(nodeModules: string, repo: Repo): seq<Step>
  {
    if repo.hasNodeModules then [] else [Effect(MakeDir(nodeModules))]
  }

  lemma MakeMissingActions(nodeModules: string, repo: Repo)
    ensures PlanActions(MakeMissing(nodeModules, repo)) == if repo.hasNodeModules then [] else [MakeDir(nodeModules)]
  {
  }

  /** replaceDependenciesWithLinks, for one root. */
  function LinkSteps(root: string, declared: set<string>, repoOf: string -> Repo): seq<Step>
  {
    var nodeModules := Join(root, "node_modules");
    MakeMissing(nodeModules, repoOf(root)) + LinkEntries(nodeModules, Entries(repoOf(root)), declared)
  }

  /** Some entry of the root's node_modules is replaced, at path `p`. */
  predicate RootRemoves(root: string, declared: set<string>, repoOf: string -> Repo, p: string)
  {
    var subs := Entries(repoOf(root));
    exists k | 0 <= k < |subs| :: RemovedEntry(Join(root, "node_modules"), subs[k], declared, p)
  }

  lemma LinkStepsRemovals(root: string, declared: set<string>, repoOf: string -> Repo, p: string)
    ensures RemoveTree(p) in PlanActions(LinkSteps(root, declared, repoOf)) <==> RootRemoves(root, declared, repoOf, p)
  {
    var nodeModules := Join(root, "node_modules");
    PlanActionsAppend(MakeMissing(nodeModules, repoOf(root)), LinkEntries(nodeModules, Entries(repoOf(root)), declared));
    MakeMissingActions(nodeModules, repoOf(root));
    LinkEntriesRemovals(nodeModules, Entries(repoOf(root)), declared, p);
  }

  lemma LinkStepsKinds(root: string, declared: set<string>, repoOf: string -> Repo)
    ensures AllInPhase(PlanActions(LinkSteps(root, declared, repoOf)), 3)
    ensures NoSymlink(PlanActions(LinkSteps(root, declared, repoOf)))
  {
    var nodeModules := Join(root, "node_modules");
    PlanActionsAppend(MakeMissing(nodeModules, repoOf(root)), LinkEntries(nodeModules, Entries(repoOf(root)), declared));
    MakeMissingActions(nodeModules, repoOf(root));
    LinkEntriesKinds(nodeModules, Entries(repoOf(root)), declared);
  }

  /** The whole indirect strategy over all roots. */
  function LinkPlan(roots: seq<string>, declared: set<string>, repoOf: string -> Repo): seq<Step>
  {
    PerRoot(roots, (root: string) => LinkSteps(root, declared, repoOf))
  }

  /** The indirect strategy deletes exactly the installed dependencies that
      are real folders matching a declared module. */
  lemma IndirectRemovals(roots: seq<string>, declared: set<string>, repoOf: string -> Repo, p: string)
    ensures RemoveTree(p) in PlanActions(LinkPlan(roots, declared, repoOf)) <==>
      exists j | 0 <= j < |roots| :: RootRemoves(roots[j], declared, repoOf, p)
  {
    var steps := (root: string) => LinkSteps(root, declared, repoOf);
    assert LinkPlan(roots, declared, repoOf) == PerRoot(roots, steps);
    PerRootActions(roots, steps, RemoveTree(p));
    forall j | 0 <= j < |roots|
      ensures RemoveTree(p) in PlanActions(steps(roots[j])) <==> RootRemoves(roots[j], declared, repoOf, p)
    {
      LinkStepsRemovals(roots[j], declared, repoOf, p);
    }
  }

  /** The indirect strategy performs nothing but link replacement, and
      creates no symlink. */
  lemma LinkPlanKinds(roots: seq<string>, declared: set<string>, repoOf: string -> Repo)
    ensures AllInPhase(PlanActions(LinkPlan(roots, declared, repoOf)), 3)
    ensures NoSymlink(PlanActions(LinkPlan(roots, declared, repoOf)))
  {
    var steps := (root: string) => LinkSteps(root, declared, repoOf);
    assert LinkPlan(roots, declared, repoOf) == PerRoot(roots, steps);
    forall a | a in PlanActions(PerRoot(roots, steps)) ensures PhaseOf(a) == 3 && !a.Symlink? {
      PerRootActions(roots, steps, a);
      var j: int :| 0 <= j < |roots| && a in PlanActions(steps(roots[j]));
      LinkStepsKinds(roots[j], declared, repoOf);
    }
  }

  /** Entries stored into a map in order: a later entry replaces an
      earlier one under the same key. */
  function LastWins(entries: seq<(string, string)>): map<string, string>
    decreases |entries|
  {
    if |entries| == 0 then map[]
    else LastWins(entries[..|entries| - 1])[entries[|entries| - 1].0 := entries[|entries| - 1].1]
  }

  predicate LastEntryAt(entries: seq<(string, string)>, key: string, i: int)
  {
    0 <= i < |entries| && entries[i].0 == key && forall j | i < j < |entries| :: entries[j].0 != key
  }

  lemma {:induction false} LastWinsKeys(entries: seq<(string, string)>, key: string)
    ensures key in LastWins(entries) <==> exists i | 0 <= i < |entries| :: entries[i].0 == key
    decreases |entries|
  {
    if |entries| > 0 {
      var front := entries[..|entries| - 1];
      LastWinsKeys(front, key);
      if key in LastWins(front) {
        var i :| 0 <= i < |front| && front[i].0 == key;
        assert entries[i] == front[i];
      }
      if key != entries[|entries| - 1].0 && exists i | 0 <= i < |entries| :: entries[i].0 == key {
        var i :| 0 <= i < |entries| && entries[i].0 == key;
        assert front[i] == entries[i];
      }
    }
  }

  lemma {:induction false} LastWinsValue(entries: seq<(string, string)>, key: string)
    requires key in LastWins(entries)
    ensures exists i :: LastEntryAt(entries, key, i) && LastWins(entries)[key] == entries[i].1
    decreases |entries|
  {
    var last := |entries| - 1;
    var front := entries[..last];
    if entries[last].0 == key {
      assert LastEntryAt(entries, key, last);
    } else {
      LastWinsValue(front, key);
      var i :| LastEntryAt(front, key, i) && LastWins(front)[key] == front[i].1;
      assert entries[i] == front[i];
      forall j | i < j < |entries| ensures entries[j].0 != key {
        if j < last {
          assert front[j] == entries[j];
        }
      }
      assert LastEntryAt(entries, key, i);
    }
  }

  /** Each root under its base name. */
  function Named(roots: seq<string>): (r: seq<(string, string)>)
    ensures |r| == |roots|
    ensures forall i | 0 <= i < |roots| :: r[i] == (BaseName(roots[i]), roots[i])
  {
    seq(|roots|, i requires 0 <= i < |roots| => (BaseName(roots[i]), roots[i]))
  }

  /** The repository map of the direct strategy: a root's base name to the
      root, later roots replacing earlier ones. */
  function RepositoryMap(roots: seq<string>): map<string, string>
  {
    LastWins(Named(roots))
  }

  predicate LastRootAt(roots: seq<string>, base: string, i: int)
  {
    0 <= i < |roots| && BaseName(roots[i]) == base && forall j | i < j < |roots| :: BaseName(roots[j]) != base
  }

  /** A base name is mapped exactly when some root has it, and then it is
      mapped to the last root that has it. */
  lemma RepositoryMapLast(roots: seq<string>, base: string)
    ensures base in RepositoryMap(roots) <==> exists i | 0 <= i < |roots| :: BaseName(roots[i]) == base
    ensures base in RepositoryMap(roots) ==> exists i :: LastRootAt(roots, base, i) && RepositoryMap(roots)[base] == roots[i]
  {
    var named := Named(roots);
    LastWinsKeys(named, base);
    if exists i | 0 <= i < |roots| :: BaseName(roots[i]) == base {
      var i :| 0 <= i < |roots| && BaseName(roots[i]) == base;
      assert named[i].0 == base;
    }
    if base in RepositoryMap(roots) {
      LastWinsValue(named, base);
      var i :| LastEntryAt(named, base, i) && LastWins(named)[base] == named[i].1;
      assert LastRootAt(roots, base, i) by {
        forall j | i < j < |roots| ensures BaseName(roots[j]) != base {
          assert named[j].0 != base;
        }
      }
    }
  }

  /** A dependency the manifest lists with a non-empty range. */
  predicate Listed(deps: Option<map<string, string>>, m: string)
  {
    deps.Some? && m in deps.value && deps.value[m] != ""
  }

  /** The direct strategy links slot `m` of a manifest with these maps to
      `target`: `m` is listed, and the repository map holds a non-empty
      root under the clone folder name `folderOf` gives for `m`'s git URL
      (GitFolderNameAsWritten in the program as written). */
  predicate LinksTo(deps: Option<map<string, string>>, opt: Option<map<string, string>>, table: ModuleTable,
                    repoMap: map<string, string>, m: string, target: string, folderOf: string -> string)
  {
    && m in table.byName
    && (Listed(deps, m) || Listed(opt, m))
    && table.byName[m].info.gitUrl.Some?
    && folderOf(table.byName[m].info.gitUrl.value) in repoMap
    && repoMap[folderOf(table.byName[m].info.gitUrl.value)] == target
    && target != ""
  }

  /** Slot `m` of node_modules folder `nodeModules`, at `link`, is linked
      to `target`. */
  predicate SlotLinked(nodeModules: string, deps: Option<map<string, string>>, opt: Option<map<string, string>>,
                       table: ModuleTable, repoMap: map<string, string>, m: string, target: string, link: string, folderOf: string -> string)
  {
    LinksTo(deps, opt, table, repoMap, m, target, folderOf) && link == Join(nodeModules, m)
  }

  predicate NoChecks(s: seq<Step>)
  {
    forall k | 0 <= k < |s| :: !s[k].Checked?
  }

  lemma NoChecksAppend(a: seq<Step>, b: seq<Step>)
    requires NoChecks(a) && NoChecks(b)
    ensures NoChecks(a + b)
  {
    forall k | 0 <= k < |a + b| ensures !(a + b)[k].Checked? {
      if k < |a| {
        assert (a + b)[k] == a[k];
      } else {
        assert (a + b)[k] == b[k - |a|];
      }
    }
  }

  /** One declared module in replaceDependenciesWithDirectSymlinks. A listed
      module without a git URL makes the original throw a TypeError. */
  function SlotStep(nodeModules: string, deps: Option<map<string, string>>, opt: Option<map<string, string>>,
                    table: ModuleTable, repoMap: map<string, string>, m: string, folderOf: string -> string): seq<Step>
    requires m in table.byName
  {
    var slot := Join(nodeModules, m);
    if !Listed(deps, m) && !Listed(opt, m) then []
    else match table.byName[m].info.gitUrl
      case None => [Throw(MissingGitUrl(m))]
      case Some(url) =>
        var folder := folderOf(url);
        if folder in repoMap && repoMap[folder] != ""
        then [Effect(RemoveTree(slot)), Effect(Symlink(repoMap[folder], slot))]
        else []
  }

  lemma SlotStepKinds(nodeModules: string, deps: Option<map<string, string>>, opt: Option<map<string, string>>,
                      table: ModuleTable, repoMap: map<string, string>, m: string, folderOf: string -> string)
    requires m in table.byName
    ensures var s := SlotStep(nodeModules, deps, opt, table, repoMap, m, folderOf);
      NoChecks(s) && AllInPhase(PlanActions(s), 3)
  {
    var slot := Join(nodeModules, m);
    if Listed(deps, m) || Listed(opt, m) {
      match table.byName[m].info.gitUrl
      case None => PlanActionsSingle(Throw(MissingGitUrl(m)));
      case Some(url) =>
        var folder := folderOf(url);
        if folder in repoMap && repoMap[folder] != "" {
          PlanActionsPair(Effect(RemoveTree(slot)), Effect(Symlink(repoMap[folder], slot)));
        }
    }
  }

  lemma SlotStepSymlink(nodeModules: string, deps: Option<map<string, string>>, opt: Option<map<string, string>>,
                        table: ModuleTable, repoMap: map<string, string>, m: string, target: string, link: string, folderOf: string -> string)
    requires m in table.byName
    ensures Symlink(target, link) in PlanActions(SlotStep(nodeModules, deps, opt, table, repoMap, m, folderOf)) <==>
      SlotLinked(nodeModules, deps, opt, table, repoMap, m, target, link, folderOf)
  {
    var slot := Join(nodeModules, m);
    if Listed(deps, m) || Listed(opt, m) {
      match table.byName[m].info.gitUrl
      case None => PlanActionsSingle(Throw(MissingGitUrl(m)));
      case Some(url) =>
        var folder := folderOf(url);
        if folder in repoMap && repoMap[folder] != "" {
          PlanActionsPair(Effect(RemoveTree(slot)), Effect(Symlink(repoMap[folder], slot)));
        }
    }
  }

  /** The inner loop of replaceDependenciesWithDirectSymlinks over the
      declared modules, from the `i`-th key on. */
  function SlotSteps(nodeModules: string, deps: Option<map<string, string>>, opt: Option<map<string, string>>,
                     table: ModuleTable, repoMap: map<string, string>, i: nat, folderOf: string -> string): seq<Step>
    requires Declares(table) && i <= |table.order|
    decreases |table.order| - i
  {
    if i == |table.order| then []
    else
      SlotStep(nodeModules, deps, opt, table, repoMap, table.order[i], folderOf)
        + SlotSteps(nodeModules, deps, opt, table, repoMap, i + 1, folderOf)
  }

  lemma {:induction false} SlotStepsKinds(nodeModules: string, deps: Option<map<string, string>>, opt: Option<map<string, string>>,
                                          table: ModuleTable, repoMap: map<string, string>, i: nat, folderOf: string -> string)
    requires Declares(table) && i <= |table.order|
    ensures var s := SlotSteps(nodeModules, deps, opt, table, repoMap, i, folderOf);
      NoChecks(s) && AllInPhase(PlanActions(s), 3)
    decreases |table.order| - i
  {
    if i < |table.order| {
      var here := SlotStep(nodeModules, deps, opt, table, repoMap, table.order[i], folderOf);
      var rest := SlotSteps(nodeModules, deps, opt, table, repoMap, i + 1, folderOf);
      PlanActionsAppend(here, rest);
      SlotStepKinds(nodeModules, deps, opt, table, repoMap, table.order[i], folderOf);
      SlotStepsKinds(nodeModules, deps, opt, table, repoMap, i + 1, folderOf);
      NoChecksAppend(here, rest);
    }
  }

  /** The slots symlinked, and to what, are exactly those LinksTo names. */
  lemma {:induction false} SlotStepsSymlinks(nodeModules: string, deps: Option<map<string, string>>, opt: Option<map<string, string>>,
                                             table: ModuleTable, repoMap: map<string, string>, i: nat, target: string, link: string, folderOf: string -> string)
    requires Declares(table) && i <= |table.order|
    ensures Symlink(target, link) in PlanActions(SlotSteps(nodeModules, deps, opt, table, repoMap, i, folderOf)) <==>
      exists k | i <= k < |table.order| :: SlotLinked(nodeModules, deps, opt, table, repoMap, table.order[k], target, link, folderOf)
    decreases |table.order| - i
  {
    if i < |table.order| {
      var here := SlotStep(nodeModules, deps, opt, table, repoMap, table.order[i], folderOf);
      var rest := SlotSteps(nodeModules, deps, opt, table, repoMap, i + 1, folderOf);
      PlanActionsAppend(here, rest);
      SlotStepSymlink(nodeModules, deps, opt, table, repoMap, table.order[i], target, link, folderOf);
      SlotStepsSymlinks(nodeModules, deps, opt, table, repoMap, i + 1, target, link, folderOf);
      if exists k | i <= k < |table.order| :: SlotLinked(nodeModules, deps, opt, table, repoMap, table.order[k], target, link, folderOf) {
        var k :| i <= k < |table.order| && SlotLinked(nodeModules, deps, opt, table, repoMap, table.order[k], target, link, folderOf);
        if k > i {
          assert i + 1 <= k < |table.order|;
        }
      }
    }
  }

  /** replaceDependenciesWithDirectSymlinks, for one root: node_modules is
      created when missing; a root without package.json, with one that is
      not valid JSON, or with neither dependency map is left at that. */
  function SymlinkSteps(root: string, table: ModuleTable, repoMap: map<string, string>, repoOf: string -> Repo, folderOf: string -> string): seq<Step>
    requires Declares(table)
  {
    var nodeModules := Join(root, "node_modules");
    var repo := repoOf(root);
    match repo.manifest
    case Parsed(_, deps, opt) =>
      if deps.None? && opt.None? then MakeMissing(nodeModules, repo)
      else MakeMissing(nodeModules, repo) + SlotSteps(nodeModules, deps, opt, table, repoMap, 0, folderOf)
    case _ => MakeMissing(nodeModules, repo)
  }

  lemma SymlinkStepsKinds(root: string, table: ModuleTable, repoMap: map<string, string>, repoOf: string -> Repo, folderOf: string -> string)
    requires Declares(table)
    ensures var s := SymlinkSteps(root, table, repoMap, repoOf, folderOf);
      NoChecks(s) && AllInPhase(PlanActions(s), 3)
  {
    var nodeModules := Join(root, "node_modules");
    var repo := repoOf(root);
    var mk := MakeMissing(nodeModules, repo);
    MakeMissingActions(nodeModules, repo);
    match repo.manifest
    case Parsed(_, deps, opt) =>
      if !(deps.None? && opt.None?) {
        var slots := SlotSteps(nodeModules, deps, opt, table, repoMap, 0, folderOf);
        PlanActionsAppend(mk, slots);
        SlotStepsKinds(nodeModules, deps, opt, table, repoMap, 0, folderOf);
        NoChecksAppend(mk, slots);
      }
    case _ =>
  }

  /** The root's manifest is readable and links its slot `link` to
      `target`. */
  predicate RootLinks(root: string, table: ModuleTable, repoMap: map<string, string>, repoOf: string -> Repo,
                      target: string, link: string, folderOf: string -> string)
  {
    var man := repoOf(root).manifest;
    man.Parsed? && exists k | 0 <= k < |table.order| ::
      SlotLinked(Join(root, "node_modules"), man.dependencies, man.optionalDependencies, table, repoMap, table.order[k], target, link, folderOf)
  }

  /** For one root, `link` becomes a symlink to `target` exactly when the
      root's manifest is readable and links one of its slots so. */
  lemma SymlinkStepsSymlinks(root: string, table: ModuleTable, repoMap: map<string, string>, repoOf: string -> Repo,
                             target: string, link: string, folderOf: string -> string)
    requires Declares(table)
    ensures Symlink(target, link) in PlanActions(SymlinkSteps(root, table, repoMap, repoOf, folderOf)) <==>
      RootLinks(root, table, repoMap, repoOf, target, link, folderOf)
  {
    var nodeModules := Join(root, "node_modules");
    var repo := repoOf(root);
    var mk := MakeMissing(nodeModules, repo);
    MakeMissingActions(nodeModules, repo);
    match repo.manifest
    case Parsed(_, deps, opt) =>
      if deps.None? && opt.None? {
        assert SymlinkSteps(root, table, repoMap, repoOf, folderOf) == mk;
        assert forall k | 0 <= k < |table.order| ::
          !SlotLinked(nodeModules, deps, opt, table, repoMap, table.order[k], target, link, folderOf);
      } else {
        var slots := SlotSteps(nodeModules, deps, opt, table, repoMap, 0, folderOf);
        assert SymlinkSteps(root, table, repoMap, repoOf, folderOf) == mk + slots;
        PlanActionsAppend(mk, slots);
        SlotStepsSymlinks(nodeModules, deps, opt, table, repoMap, 0, target, link, folderOf);
      }
    case _ =>
      assert SymlinkSteps(root, table, repoMap, repoOf, folderOf) == mk;
  }

  /** The whole direct strategy over all roots, with `folderOf` naming
      the clone folder of a git URL. */
  function SymlinkPlan(roots: seq<string>, table: ModuleTable, repoOf: string -> Repo, folderOf: string -> string): seq<Step>
    requires Declares(table)
  {
    var repoMap := RepositoryMap(roots);
    PerRoot(roots, (root: string) => SymlinkSteps(root, table, repoMap, repoOf, folderOf))
  }

  lemma {:induction false} PerRootNoChecks(roots: seq<string>, steps: string -> seq<Step>)
    requires forall j | 0 <= j < |roots| :: NoChecks(steps(roots[j]))
    ensures NoChecks(PerRoot(roots, steps))
    decreases |roots|
  {
    if |roots| > 0 {
      var here := steps(roots[0]);
      var rest := PerRoot(roots[1..], steps);
      assert forall j | 0 <= j < |roots[1..]| :: roots[1..][j] == roots[j + 1];
      PerRootNoChecks(roots[1..], steps);
      NoChecksAppend(here, rest);
    }
  }

  /** The direct strategy plans a symlink at `link` to `target` exactly when
      some root's manifest lists a module whose clone folder name is in the
      repository map, `target` being the root mapped there (the last root
      with that base name, by RepositoryMapLast), and `link` is that
      module's slot in the listing root's node_modules. */
  lemma DirectSymlinks(roots: seq<string>, table: ModuleTable, repoOf: string -> Repo, target: string, link: string, folderOf: string -> string)
    requires Declares(table)
    ensures Symlink(target, link) in PlanActions(SymlinkPlan(roots, table, repoOf, folderOf)) <==>
      exists j | 0 <= j < |roots| :: RootLinks(roots[j], table, RepositoryMap(roots), repoOf, target, link, folderOf)
  {
    var repoMap := RepositoryMap(roots);
    var steps := (root: string) => SymlinkSteps(root, table, repoMap, repoOf, folderOf);
    assert SymlinkPlan(roots, table, repoOf, folderOf) == PerRoot(roots, steps);
    PerRootActions(roots, steps, Symlink(target, link));
    forall j | 0 <= j < |roots|
      ensures Symlink(target, link) in PlanActions(steps(roots[j])) <==> RootLinks(roots[j], table, repoMap, repoOf, target, link, folderOf)
    {
      SymlinkStepsSymlinks(roots[j], table, repoMap, repoOf, target, link, folderOf);
    }
  }

  /** The direct strategy checks no exit code, and performs nothing but
      link replacement. */
  lemma SymlinkPlanKinds(roots: seq<string>, table: ModuleTable, repoOf: string -> Repo, folderOf: string -> string)
    requires Declares(table)
    ensures NoChecks(SymlinkPlan(roots, table, repoOf, folderOf))
    ensures AllInPhase(PlanActions(SymlinkPlan(roots, table, repoOf, folderOf)), 3)
  {
    var repoMap := RepositoryMap(roots);
    var steps := (root: string) => SymlinkSteps(root, table, repoMap, repoOf, folderOf);
    assert SymlinkPlan(roots, table, repoOf, folderOf) == PerRoot(roots, steps);
    forall j | 0 <= j < |roots| ensures NoChecks(steps(roots[j])) {
      SymlinkStepsKinds(roots[j], table, repoMap, repoOf, folderOf);
    }
    PerRootNoChecks(roots, steps);
    forall a | a in PlanActions(PerRoot(roots, steps)) ensures PhaseOf(a) == 3 {
      PerRootActions(roots, steps, a);
      var j: int :| 0 <= j < |roots| && a in PlanActions(steps(roots[j]));
      SymlinkStepsKinds(roots[j], table, repoMap, repoOf, folderOf);
    }
  }

  // ---------------------------------------------------------------------------
  // setupModules and the order of its phases
  // ---------------------------------------------------------------------------

  /** registerNPMModules runs only for the indirect strategy. */
  function RegisterPhase(roots: seq<string>, useDirectSymlinks: bool): seq<Step>
  {
    if useDirectSymlinks then [] else PerRoot(roots, RegisterSteps)
  }

  function InstallPhase(roots: seq<string>): seq<Step>
  {
    PerRoot(roots, InstallSteps)
  }

  function TypingsPhase(roots: seq<string>, table: ModuleTable, repoOf: string -> Repo): seq<Step>
    decreases |roots|
  {
    if |roots| == 0 then [] else TypingsSteps(roots[0], table, repoOf) + TypingsPhase(roots[1..], table, repoOf)
  }

  function ReplacePhase(roots: seq<string>, table: ModuleTable, repoOf: string -> Repo, useDirectSymlinks: bool, folderOf: string -> string): seq<Step>
    requires Declares(table)
  {
    if useDirectSymlinks then SymlinkPlan(roots, table, repoOf, folderOf) else LinkPlan(roots, table.byName.Keys, repoOf)
  }

  /** setupModules: registration, install, typings, then the chosen link
      replacement. */
  function SetupPlan(roots: seq<string>, table: ModuleTable, repoOf: string -> Repo, useDirectSymlinks: bool, folderOf: string -> string): seq<Step>
    requires Declares(table)
  {
    RegisterPhase(roots, useDirectSymlinks) + InstallPhase(roots) + TypingsPhase(roots, table, repoOf)
      + ReplacePhase(roots, table, repoOf, useDirectSymlinks, folderOf)
  }

  function SetupModules(roots: seq<string>, table: ModuleTable, repoOf: string -> Repo, useDirectSymlinks: bool,
                        exitOf: Action -> int, folderOf: string -> string): SetupRun
    requires Declares(table)
  {
    RunPlan(SetupPlan(roots, table, repoOf, useDirectSymlinks, folderOf), exitOf)
  }

  lemma RegisterPhaseActions(roots: seq<string>, useDirectSymlinks: bool)
    ensures AllInPhase(PlanActions(RegisterPhase(roots, useDirectSymlinks)), 0)
    ensures NoSymlink(PlanActions(RegisterPhase(roots, useDirectSymlinks)))
  {
    forall a | a in PlanActions(PerRoot(roots, RegisterSteps)) ensures PhaseOf(a) == 0 && !a.Symlink? {
      PerRootActions(roots, RegisterSteps, a);
    }
  }

  lemma InstallPhaseActions(roots: seq<string>)
    ensures AllInPhase(PlanActions(InstallPhase(roots)), 1)
    ensures NoSymlink(PlanActions(InstallPhase(roots)))
  {
    forall a | a in PlanActions(InstallPhase(roots)) ensures PhaseOf(a) == 1 && !a.Symlink? {
      PerRootActions(roots, InstallSteps, a);
    }
  }

  lemma {:induction false} TypingsPhaseActions(roots: seq<string>, table: ModuleTable, repoOf: string -> Repo)
    ensures AllInPhase(PlanActions(TypingsPhase(roots, table, repoOf)), 2)
    ensures NoSymlink(PlanActions(TypingsPhase(roots, table, repoOf)))
    decreases |roots|
  {
    if |roots| > 0 {
      PlanActionsAppend(TypingsSteps(roots[0], table, repoOf), TypingsPhase(roots[1..], table, repoOf));
      TypingsStepsKinds(roots[0], table, repoOf);
      TypingsPhaseActions(roots[1..], table, repoOf);
    }
  }

  /** The root's folder or manifest name matches a declared module whose
      installTypings flag is truthy. */
  predicate WantsTypings(root: string, table: ModuleTable, repoOf: string -> Repo)
  {
    var m := ModuleFromFolder(BaseName(root), ManifestName(repoOf(root).manifest), table.byName.Keys);
    m.Some? && m.value in table.byName && Truthy(table.byName[m.value].info.installTypings)
  }

  /** installTypings runs "typings install" in the root exactly when the
      root's manifest is readable and its module wants typings; it throws
      exactly when the manifest is not valid JSON. */
  lemma TypingsStepsIff(root: string, table: ModuleTable, repoOf: string -> Repo)
    ensures var s := TypingsSteps(root, table, repoOf);
      && (Exec("typings install", root) in PlanActions(s) <==>
            !repoOf(root).manifest.Unparsable? && WantsTypings(root, table, repoOf))
      && ((exists k | 0 <= k < |s| :: s[k].Throw?) <==> repoOf(root).manifest.Unparsable?)
  {
    var s := TypingsSteps(root, table, repoOf);
    if repoOf(root).manifest.Unparsable? {
      assert s == [Throw(InvalidManifest(root))];
      PlanActionsSingle(s[0]);
    } else if WantsTypings(root, table, repoOf) {
      assert s == [Checked(Exec("typings install", root), TypingsFailed(root))];
      PlanActionsSingle(s[0]);
    } else {
      assert s == [];
    }
  }

  /** installTypings runs nothing but "typings install" in the root. */
  lemma TypingsStepsKinds(root: string, table: ModuleTable, repoOf: string -> Repo)
    ensures forall a | a in PlanActions(TypingsSteps(root, table, repoOf)) :: a == Exec("typings install", root)
  {
    var s := TypingsSteps(root, table, repoOf);
    assert s == [] || s == [Throw(InvalidManifest(root))] || s == [Checked(Exec("typings install", root), TypingsFailed(root))];
    if s != [] {
      PlanActionsSingle(s[0]);
    }
  }

  lemma ReplacePhaseActions(roots: seq<string>, table: ModuleTable, repoOf: string -> Repo, useDirectSymlinks: bool, folderOf: string -> string)
    requires Declares(table)
    ensures AllInPhase(PlanActions(ReplacePhase(roots, table, repoOf, useDirectSymlinks, folderOf)), 3)
    ensures !useDirectSymlinks ==> NoSymlink(PlanActions(ReplacePhase(roots, table, repoOf, useDirectSymlinks, folderOf)))
  {
    if useDirectSymlinks {
      SymlinkPlanKinds(roots, table, repoOf, folderOf);
    } else {
      LinkPlanKinds(roots, table.byName.Keys, repoOf);
    }
  }

  predicate PhaseOrdered(s: seq<Action>)
  {
    forall i, j | 0 <= i < j < |s| :: PhaseOf(s[i]) <= PhaseOf(s[j])
  }

  lemma ConcatOrdered(a: seq<Action>, b: seq<Action>, p: nat)
    requires PhaseOrdered(a) && forall x | x in a :: PhaseOf(x) <= p
    requires AllInPhase(b, p)
    ensures PhaseOrdered(a + b)
  {
    forall i, j | 0 <= i < j < |a + b| ensures PhaseOf((a + b)[i]) <= PhaseOf((a + b)[j]) {
      if j >= |a| {
        assert (a + b)[j] == b[j - |a|];
        if i < |a| {
          assert (a + b)[i] == a[i];
        } else {
          assert (a + b)[i] == b[i - |a|];
        }
      }
    }
  }

  /** The commands setupModules plans are in phase order. */
  lemma SetupPlanOrdered(roots: seq<string>, table: ModuleTable, repoOf: string -> Repo, useDirectSymlinks: bool, folderOf: string -> string)
    requires Declares(table)
    ensures PhaseOrdered(PlanActions(SetupPlan(roots, table, repoOf, useDirectSymlinks, folderOf)))
  {
    var a0 := PlanActions(RegisterPhase(roots, useDirectSymlinks));
    var a1 := PlanActions(InstallPhase(roots));
    var a2 := PlanActions(TypingsPhase(roots, table, repoOf));
    var a3 := PlanActions(ReplacePhase(roots, table, repoOf, useDirectSymlinks, folderOf));
    SetupPlanActions(roots, table, repoOf, useDirectSymlinks, folderOf);
    RegisterPhaseActions(roots, useDirectSymlinks);
    InstallPhaseActions(roots);
    TypingsPhaseActions(roots, table, repoOf);
    ReplacePhaseActions(roots, table, repoOf, useDirectSymlinks, folderOf);
    ConcatOrdered([], a0, 0);
    assert [] + a0 == a0;
    ConcatOrdered(a0, a1, 1);
    ConcatOrdered(a0 + a1, a2, 2);
    ConcatOrdered(a0 + a1 + a2, a3, 3);
  }

  lemma SetupPlanActions(roots: seq<string>, table: ModuleTable, repoOf: string -> Repo, useDirectSymlinks: bool, folderOf: string -> string)
    requires Declares(table)
    ensures PlanActions(SetupPlan(roots, table, repoOf, useDirectSymlinks, folderOf)) ==
      PlanActions(RegisterPhase(roots, useDirectSymlinks)) + PlanActions(InstallPhase(roots))
        + PlanActions(TypingsPhase(roots, table, repoOf)) + PlanActions(ReplacePhase(roots, table, repoOf, useDirectSymlinks, folderOf))
  {
    var p0 := RegisterPhase(roots, useDirectSymlinks);
    var p1 := InstallPhase(roots);
    var p2 := TypingsPhase(roots, table, repoOf);
    var p3 := ReplacePhase(roots, table, repoOf, useDirectSymlinks, folderOf);
    PlanActionsAppend(p0, p1);
    PlanActionsAppend(p0 + p1, p2);
    PlanActionsAppend(p0 + p1 + p2, p3);
  }

  /** setupModules performs its commands phase by phase: every registration
      before every install, every install before every typings install,
      and all of these before any link replacement, whatever fails. */
  lemma SetupPhasesInOrder(roots: seq<string>, table: ModuleTable, repoOf: string -> Repo, useDirectSymlinks: bool,
                           exitOf: Action -> int, folderOf: string -> string)
    requires Declares(table)
    ensures PhaseOrdered(SetupModules(roots, table, repoOf, useDirectSymlinks, exitOf, folderOf).actions)
  {
    var all := PlanActions(SetupPlan(roots, table, repoOf, useDirectSymlinks, folderOf));
    var done := SetupModules(roots, table, repoOf, useDirectSymlinks, exitOf, folderOf).actions;
    RunPlanFacts(SetupPlan(roots, table, repoOf, useDirectSymlinks, folderOf), exitOf);
    SetupPlanOrdered(roots, table, repoOf, useDirectSymlinks, folderOf);
    assert forall i | 0 <= i < |done| :: done[i] == all[i];
  }

  lemma SetupPlanKinds(roots: seq<string>, table: ModuleTable, repoOf: string -> Repo, useDirectSymlinks: bool, folderOf: string -> string)
    requires Declares(table)
    ensures var all := PlanActions(SetupPlan(roots, table, repoOf, useDirectSymlinks, folderOf));
      && (useDirectSymlinks ==> forall a | a in all :: PhaseOf(a) != 0)
      && (!useDirectSymlinks ==> NoSymlink(all))
  {
    var a0 := PlanActions(RegisterPhase(roots, useDirectSymlinks));
    var a1 := PlanActions(InstallPhase(roots));
    var a2 := PlanActions(TypingsPhase(roots, table, repoOf));
    var a3 := PlanActions(ReplacePhase(roots, table, repoOf, useDirectSymlinks, folderOf));
    SetupPlanActions(roots, table, repoOf, useDirectSymlinks, folderOf);
    RegisterPhaseActions(roots, useDirectSymlinks);
    InstallPhaseActions(roots);
    TypingsPhaseActions(roots, table, repoOf);
    ReplacePhaseActions(roots, table, repoOf, useDirectSymlinks, folderOf);
    if useDirectSymlinks {
      assert a0 == [];
    }
  }

  /** The direct strategy never registers a module with "npm link"; the
      indirect one never creates a symlink. */
  lemma StrategiesStayApart(roots: seq<string>, table: ModuleTable, repoOf: string -> Repo, useDirectSymlinks: bool,
                            exitOf: Action -> int, folderOf: string -> string)
    requires Declares(table)
    ensures var done := SetupModules(roots, table, repoOf, useDirectSymlinks, exitOf, folderOf).actions;
      && (useDirectSymlinks ==> forall a | a in done :: !(a.Exec? && a.line == "npm link"))
      && (!useDirectSymlinks ==> NoSymlink(done))
  {
    var all := PlanActions(SetupPlan(roots, table, repoOf, useDirectSymlinks, folderOf));
    var done := SetupModules(roots, table, repoOf, useDirectSymlinks, exitOf, folderOf).actions;
    RunPlanFacts(SetupPlan(roots, table, repoOf, useDirectSymlinks, folderOf), exitOf);
    SetupPlanKinds(roots, table, repoOf, useDirectSymlinks, folderOf);
    forall a | a in done ensures a in all {
      var i :| 0 <= i < |done| && done[i] == a;
      assert all[i] == a;
    }
  }

  // ---------------------------------------------------------------------------
  // setUp and createSymlinks
  // ---------------------------------------------------------------------------

  /** setUp: load the descriptor, clone, then set the roots up. An exception
      while cloning ends the run before any setup step. Cloning and the
      direct strategy derive clone folders with `folderOf`. */
  function SetUp(root: string, ws: Workspace, d: Descriptor, cloneOf: Action -> CloneOutcome, repoOf: string -> Repo,
                 exitOf: Action -> int, useSymlinks: bool, folderOf: string -> string): SetupRun
  {
    var table := LoadModulesStaticInfo(d);
    var clone := CloneRepositories(root, ws, table, cloneOf, folderOf);
    if clone.failure.Some? then SetupRun(clone.actions, clone.failure)
    else
      var setup := SetupModules(Roots(clone.resolutions), table, repoOf, useSymlinks, exitOf, folderOf);
      SetupRun(clone.actions + setup.actions, setup.failure)
  }

  /** setUp performs the cloning commands first; a clone failure is its
      outcome, and otherwise the setup commands that follow run phase by
      phase. */
  lemma SetUpFacts(root: string, ws: Workspace, d: Descriptor, cloneOf: Action -> CloneOutcome, repoOf: string -> Repo,
                   exitOf: Action -> int, useSymlinks: bool, folderOf: string -> string)
    ensures var r := SetUp(root, ws, d, cloneOf, repoOf, exitOf, useSymlinks, folderOf);
      var clone := CloneRepositories(root, ws, LoadModulesStaticInfo(d), cloneOf, folderOf);
      && clone.actions <= r.actions
      && (clone.failure.Some? ==> r == SetupRun(clone.actions, clone.failure))
      && (clone.failure.None? ==> PhaseOrdered(r.actions[|clone.actions|..]))
  {
    var table := LoadModulesStaticInfo(d);
    var clone := CloneRepositories(root, ws, table, cloneOf, folderOf);
    if clone.failure.None? {
      var setup := SetupModules(Roots(clone.resolutions), table, repoOf, useSymlinks, exitOf, folderOf);
      SetupPhasesInOrder(Roots(clone.resolutions), table, repoOf, useSymlinks, exitOf, folderOf);
      assert SetUp(root, ws, d, cloneOf, repoOf, exitOf, useSymlinks, folderOf).actions == clone.actions + setup.actions;
      assert (clone.actions + setup.actions)[|clone.actions|..] == setup.actions;
    }
  }

  /** The exit code createSymlinks would see; its plan consults none. */
  function Unconsulted(a: Action): int
  {
    0
  }

  /** createSymlinks: clone, then only the direct link replacement, both
      deriving clone folders with `folderOf`. */
  function CreateSymlinks(root: string, ws: Workspace, d: Descriptor, cloneOf: Action -> CloneOutcome,
                          repoOf: string -> Repo, folderOf: string -> string): SetupRun
  {
    var table := LoadModulesStaticInfo(d);
    var clone := CloneRepositories(root, ws, table, cloneOf, folderOf);
    if clone.failure.Some? then SetupRun(clone.actions, clone.failure)
    else
      var run := RunPlan(SymlinkPlan(Roots(clone.resolutions), table, repoOf, folderOf), Unconsulted);
      SetupRun(clone.actions + run.actions, run.failure)
  }

  /** No step of the plan throws. */
  predicate NoThrow(plan: seq<Step>)
  {
    forall k | 0 <= k < |plan| :: !plan[k].Throw?
  }

  /** A plan that checks no exit code fails exactly when it holds a Throw
      step, and otherwise performs all its commands. */
  lemma UncheckedRun(plan: seq<Step>, exitOf: Action -> int)
    requires NoChecks(plan)
    ensures var r := RunPlan(plan, exitOf);
      && (r.failure.None? <==> NoThrow(plan))
      && (r.failure.None? ==> r.actions == PlanActions(plan))
  {
    RunPlanFacts(plan, exitOf);
    assert forall k | 0 <= k < |plan| :: Fails(plan[k], exitOf) == plan[k].Throw?;
  }

  /** Running an unchecked plan after a clone: the clone's commands come
      first, and a clean clone followed by a plan without Throw steps
      performs the whole plan. */
  lemma UncheckedAfterClone(clone: CloneRun, plan: seq<Step>, r: SetupRun)
    requires NoChecks(plan)
    requires clone.failure.Some? ==> r == SetupRun(clone.actions, clone.failure)
    requires clone.failure.None? ==>
      r == SetupRun(clone.actions + RunPlan(plan, Unconsulted).actions, RunPlan(plan, Unconsulted).failure)
    ensures clone.actions <= r.actions
    ensures clone.failure.None? ==>
      && (r.failure.None? <==> NoThrow(plan))
      && (r.failure.None? ==> r.actions == clone.actions + PlanActions(plan))
  {
    if clone.failure.None? {
      UncheckedRun(plan, Unconsulted);
      assert clone.actions <= clone.actions + RunPlan(plan, Unconsulted).actions;
    }
  }

  /** createSymlinks performs the cloning commands first. Its link plan
      checks no exit code, so after a clean clone it fails only on a
      listed module without a git URL, and otherwise performs the whole
      plan. */
  lemma CreateSymlinksFacts(root: string, ws: Workspace, d: Descriptor, cloneOf: Action -> CloneOutcome,
                            repoOf: string -> Repo, folderOf: string -> string)
    ensures var r := CreateSymlinks(root, ws, d, cloneOf, repoOf, folderOf);
      var table := LoadModulesStaticInfo(d);
      var clone := CloneRepositories(root, ws, table, cloneOf, folderOf);
      && clone.actions <= r.actions
      && (clone.failure.Some? ==> r == SetupRun(clone.actions, clone.failure))
      && (clone.failure.None? ==>
            var plan := SymlinkPlan(Roots(clone.resolutions), table, repoOf, folderOf);
            && (r.failure.None? <==> NoThrow(plan))
            && (r.failure.None? ==> r.actions == clone.actions + PlanActions(plan)))
  {
    var table := LoadModulesStaticInfo(d);
    var clone := CloneRepositories(root, ws, table, cloneOf, folderOf);
    var plan := SymlinkPlan(Roots(clone.resolutions), table, repoOf, folderOf);
    SymlinkPlanKinds(Roots(clone.resolutions), table, repoOf, folderOf);
    UncheckedAfterClone(clone, plan, CreateSymlinks(root, ws, d, cloneOf, repoOf, folderOf));
  }
}
