/** Repository materialisation (the first half of devEnvInstaller.ts): the
    folder a git URL clones into, the detection of already-present clones,
    and the three-way resolution of every declared module into a working
    copy. Git is an oracle from the clone command to its exit code and the
    folder it created; the workspace root is a listing of folders. */
module Materializer {
  import opened Wrappers
  import opened Strings
  import opened JsValues
  import opened Paths
  import opened Commands
  import opened ModuleDetector

  // ---------------------------------------------------------------------------
  // The folder a git URL clones into
  // ---------------------------------------------------------------------------

  /** getModuleGitFolderName as written: from after the last '/' up to the
      last occurrence of ".git" anywhere in the URL (the end when there is
      none). JavaScript's `substr` with a negative length gives "", so a
      ".git" before the last '/' yields the empty name. */
  function GitFolderNameAsWritten(url: string): (r: string)
    ensures var cut := GitCut(url);
      && IsSuffix(r, url[..cut])
      && '/' !in r
      && ((exists k | cut <= k < |url| :: url[k] == '/') ==> r == "")
      && ((forall k | cut <= k < |url| :: url[k] != '/') ==> r == BaseName(url[..cut]))
  {
    var lastSlash := LastIndexOfChar(url, '/');
    var gitExt := GitCut(url);
    if gitExt >= lastSlash + 1 then
      LastSlashOfPrefix(url, gitExt);
      url[lastSlash + 1..gitExt]
    else ""
  }

  /** Where getModuleGitFolderName cuts the URL: at the last ".git", or at
      the end when there is none. */
  function GitCut(url: string): (cut: nat)
    ensures cut <= |url|
  {
    if LastIndexOf(url, ".git") == -1 then |url| else LastIndexOf(url, ".git")
  }

  /** Cutting a text after its last '/' keeps that '/' the last one. */
  lemma LastSlashOfPrefix(url: string, cut: nat)
    requires LastIndexOfChar(url, '/') < cut <= |url|
    ensures LastIndexOfChar(url[..cut], '/') == LastIndexOfChar(url, '/')
  {
    var ls := LastIndexOfChar(url, '/');
    var r := LastIndexOfChar(url[..cut], '/');
    if ls >= 0 {
      assert url[..cut][ls] == '/';
    }
    if r >= 0 {
      assert url[r] == url[..cut][r];
    }
  }

  /** The folder `git clone` creates: the last path segment of the URL with
      a trailing ".git" removed: what getModuleGitFolderName evidently
      means to compute. The clone and link steps below take the folder-name
      function as a parameter, `folderOf`: the program as written is the
      instance GitFolderNameAsWritten, the corrected one GitFolderName, and
      every contract about those steps holds for both. */
  function GitFolderName(url: string): (r: string)
    ensures '/' !in r
    ensures IsPrefix(r, BaseName(url))
    ensures r == BaseName(url) || r + ".git" == BaseName(url)
  {
    var segment := BaseName(url);
    if IsSuffix(".git", segment) then segment[..|segment| - 4] else segment
  }

  /** A URL ending in "/<name>.git" or "/<name>" clones into <name>. */
  lemma GitFolderNameOfRepoUrl(prefix: string, name: string)
    requires name != "" && '/' !in name
    ensures GitFolderName(prefix + "/" + name + ".git") == name
    ensures !IsSuffix(".git", name) ==> GitFolderName(prefix + "/" + name) == name
  {
    BaseNameOfJoin(prefix, name + ".git");
    assert Join(prefix, name + ".git") == prefix + "/" + name + ".git";
    assert (name + ".git")[..|name|] == name;
    BaseNameOfJoin(prefix, name);
  }

  /** Where the two definitions agree: a URL "<prefix>/<name>.git" gives
      <name> as written too, whatever the prefix holds. */
  lemma AsWrittenStripsSuffix(prefix: string, name: string)
    requires '/' !in name
    ensures GitFolderNameAsWritten(prefix + "/" + name + ".git") == name
  {
    var url := prefix + "/" + name + ".git";
    var slash := |prefix|;
    assert url[slash] == '/';
    assert forall k | slash < k < |url| :: url[k] != '/' by {
      forall k | slash < k < |url| ensures url[k] != '/' {
        if k < slash + 1 + |name| {
          assert url[k] == name[k - slash - 1];
        } else {
          assert url[k] == ".git"[k - slash - 1 - |name|];
        }
      }
    }
    assert LastIndexOfChar(url, '/') == slash;
    assert OccursAt(url, ".git", |url| - 4);
    assert LastIndexOf(url, ".git") == |url| - 4;
    assert url[slash + 1..|url| - 4] == name;
  }

  /** A URL without ".git" gives its last segment as written. */
  lemma AsWrittenPlainUrl(prefix: string, name: string)
    requires '/' !in name
    requires !Contains(prefix + "/" + name, ".git")
    ensures GitFolderNameAsWritten(prefix + "/" + name) == name
  {
    var url := prefix + "/" + name;
    var slash := |prefix|;
    assert url[slash] == '/';
    assert forall k | slash < k < |url| :: url[k] == name[k - slash - 1];
    assert LastIndexOfChar(url, '/') == slash;
    assert forall j | 0 <= j <= |url| :: !OccursAt(url, ".git", j);
    assert LastIndexOf(url, ".git") == -1;
    assert url[slash + 1..] == name;
  }

  lemma LastSlashBeforeName(prefix: string, name: string)
    requires '/' !in name
    ensures LastIndexOfChar(prefix + "/" + name, '/') == |prefix|
  {
    var url := prefix + "/" + name;
    var r := LastIndexOfChar(url, '/');
    assert url[|prefix|] == '/';
    if r > |prefix| {
      assert false;
    }
  }

  /** With no '.' in <name>, the last ".git" of "<prefix>/<name>" lies in
      <prefix>, at or after any occurrence there. */
  lemma LastGitInPrefix(prefix: string, name: string, j: nat)
    requires OccursAt(prefix, ".git", j)
    requires '.' !in name
    ensures j <= LastIndexOf(prefix + "/" + name, ".git") < |prefix|
  {
    var url := prefix + "/" + name;
    assert url[j..j + 4] == prefix[j..j + 4];
    assert OccursAt(url, ".git", j);
    forall k | |prefix| <= k <= |url| ensures !OccursAt(url, ".git", k) {
      if k + 4 <= |url| {
        assert url[k..k + 4][0] == url[k];
        if k > |prefix| {
          assert url[k] == name[k - |prefix| - 1];
        }
      }
    }
  }

  /** The defect: a URL without the ".git" suffix whose host or path holds
      ".git" elsewhere (a host such as "my.gitlab.com") names the empty
      folder as written, while the clone lands in <name>. */
  lemma AsWrittenLosesName(prefix: string, name: string, j: nat)
    requires OccursAt(prefix, ".git", j)
    requires name != "" && '/' !in name && '.' !in name
    ensures GitFolderNameAsWritten(prefix + "/" + name) == ""
    ensures GitFolderName(prefix + "/" + name) == name
  {
    LastSlashBeforeName(prefix, name);
    LastGitInPrefix(prefix, name, j);
    GitFolderNameOfRepoUrl(prefix, name);
    if |name| >= 4 {
      assert name[|name| - 4..][0] == name[|name| - 4];
    }
  }

  /** "https://my.gitlab.com/org/repo": a self-hosted GitLab URL. */
  lemma AsWrittenLosesNameExample()
    ensures GitFolderNameAsWritten("https://my.gitlab.com/org/repo") == ""
    ensures GitFolderName("https://my.gitlab.com/org/repo") == "repo"
  {
    var prefix := "https://my.gitlab.com/org";
    var name := "repo";
    assert prefix + "/" + name == "https://my.gitlab.com/org/repo";
    assert OccursAt(prefix, ".git", 10) by {
      assert prefix[10..14] == ".git";
    }
    assert '/' !in name && '.' !in name;
    AsWrittenLosesName(prefix, name, 10);
  }

  // ---------------------------------------------------------------------------
  // The workspace root and the clones already in it
  // ---------------------------------------------------------------------------

  /** The workspace root: whether it exists and its sub-directories, in
      listing order. Plain files are not represented, although
      `fs.existsSync` is true for a file of the tested name as well. */
  datatype Workspace = Workspace(present: bool, folders: seq<Dir>)

  /** `fs.existsSync(path.join(root, name))`; the empty name is the root. */
  predicate FolderExists(ws: Workspace, name: string)
  {
    ws.present && (name == "" || exists k | 0 <= k < |ws.folders| :: ws.folders[k].name == name)
  }

  /** Folder `i` is the last one in `folders` that matches module `m`. */
  predicate LastMatchAt(folders: seq<Dir>, declared: set<string>, m: string, i: int)
  {
    && 0 <= i < |folders|
    && MatchDir(folders[i], declared) == Some(m)
    && forall j | i < j < |folders| :: MatchDir(folders[j], declared) != Some(m)
  }

  /** getExistingModules over a listing: every folder that matches a
      declared module records its path under that module's name; a later
      folder overwrites an earlier one. */
  function MatchedFolders(root: string, folders: seq<Dir>, declared: set<string>): (r: map<string, string>)
    ensures forall m | m in r :: m in declared
    decreases |folders|
  {
    if |folders| == 0 then map[]
    else
      var last := folders[|folders| - 1];
      var r0 := MatchedFolders(root, folders[..|folders| - 1], declared);
      match MatchDir(last, declared)
      case None => r0
      case Some(m) => r0[m := Join(root, last.name)]
  }

  /** A module is recorded exactly when some folder matches it. */
  lemma {:induction false} MatchedFoldersKeys(root: string, folders: seq<Dir>, declared: set<string>, m: string)
    ensures m in MatchedFolders(root, folders, declared) <==>
      exists i | 0 <= i < |folders| :: MatchDir(folders[i], declared) == Some(m)
    decreases |folders|
  {
    if |folders| > 0 {
      var front := folders[..|folders| - 1];
      MatchedFoldersKeys(root, front, declared, m);
      if exists i | 0 <= i < |front| :: MatchDir(front[i], declared) == Some(m) {
        var i :| 0 <= i < |front| && MatchDir(front[i], declared) == Some(m);
        assert folders[i] == front[i];
      }
      if exists i | 0 <= i < |folders| :: MatchDir(folders[i], declared) == Some(m) {
        var i :| 0 <= i < |folders| && MatchDir(folders[i], declared) == Some(m);
        if i < |front| {
          assert front[i] == folders[i];
        }
      }
    }
  }

  /** The recorded path is that of the last matching folder. */
  lemma {:induction false} MatchedFoldersLast(root: string, folders: seq<Dir>, declared: set<string>, m: string)
    requires m in MatchedFolders(root, folders, declared)
    ensures exists i :: LastMatchAt(folders, declared, m, i) && MatchedFolders(root, folders, declared)[m] == Join(root, folders[i].name)
    decreases |folders|
  {
    var front := folders[..|folders| - 1];
    var last := folders[|folders| - 1];
    if MatchDir(last, declared) == Some(m) {
      assert LastMatchAt(folders, declared, m, |folders| - 1);
    } else {
      MatchedFoldersLast(root, front, declared, m);
      var i :| LastMatchAt(front, declared, m, i) && MatchedFolders(root, front, declared)[m] == Join(root, front[i].name);
      assert folders[i] == front[i];
      assert forall j | i < j < |front| :: front[j] == folders[j];
      assert LastMatchAt(folders, declared, m, i);
    }
  }

  lemma MatchedFoldersFacts(root: string, folders: seq<Dir>, declared: set<string>, m: string)
    ensures m in MatchedFolders(root, folders, declared) <==>
      exists i | 0 <= i < |folders| :: MatchDir(folders[i], declared) == Some(m)
    ensures m in MatchedFolders(root, folders, declared) ==>
      exists i :: LastMatchAt(folders, declared, m, i) && MatchedFolders(root, folders, declared)[m] == Join(root, folders[i].name)
  {
    MatchedFoldersKeys(root, folders, declared, m);
    if m in MatchedFolders(root, folders, declared) {
      MatchedFoldersLast(root, folders, declared, m);
    }
  }

  /** getExistingModules: nothing when the root does not exist. */
  function ExistingModules(root: string, ws: Workspace, declared: set<string>): (r: map<string, string>)
    ensures !ws.present ==> r == map[]
    ensures ws.present ==> r == MatchedFolders(root, ws.folders, declared)
  {
    if ws.present then MatchedFolders(root, ws.folders, declared) else map[]
  }

  /** findModulePath: the last folder that matches module `name` alone
      (by folder name or manifest name). The original falls back to the
      module's earlier fsLocation, which is unset whenever cloneRepositories
      reaches this call: a module found by getExistingModules never gets
      this far. */
  function FindModulePath(root: string, ws: Workspace, name: string): (r: Option<string>)
    ensures !ws.present ==> r.None?
    ensures ws.present ==> (r.Some? <==> exists i | 0 <= i < |ws.folders| :: MatchDir(ws.folders[i], {name}) == Some(name))
    ensures r.Some? ==> exists i :: LastMatchAt(ws.folders, {name}, name, i) && r.value == Join(root, ws.folders[i].name)
  {
    var found := ExistingModules(root, ws, {name});
    MatchedFoldersFacts(root, ws.folders, {name}, name);
    if name in found then Some(found[name]) else None
  }

  // ---------------------------------------------------------------------------
  // Clone and checkout commands
  // ---------------------------------------------------------------------------

  /** The clone command: a single-branch clone of the declared branch when
      the branch is truthy, a plain clone otherwise. */
  function CloneCommand(url: string, branch: JsValue): (c: string)
    ensures IsPrefix("git clone " + url, c)
    ensures Truthy(branch) ==> c[|"git clone " + url|..] == " --branch " + ToJsString(branch) + " --single-branch"
    ensures !Truthy(branch) <==> c == "git clone " + url
  {
    if Truthy(branch) then "git clone " + url + " --branch " + ToJsString(branch) + " --single-branch"
    else "git clone " + url
  }

  /** checkoutBranch: one "git checkout <branch>" in `path`, or nothing when
      the module is missing or its branch is falsy. Its exit code is only
      logged, so it does not appear in the model. */
  function CheckoutBranch(path: string, m: Option<StaticModule>): (r: seq<Action>)
    ensures r == [] <==> m.None? || !Truthy(m.value.gitBranch)
    ensures r != [] ==> r == [Exec("git checkout " + ToJsString(m.value.gitBranch), path)]
  {
    if m.None? || !Truthy(m.value.gitBranch) then []
    else [Exec("git checkout " + ToJsString(m.value.gitBranch), path)]
  }

  // ---------------------------------------------------------------------------
  // Resolving one module
  // ---------------------------------------------------------------------------

  /** What `git clone` did: its exit code and the folder it created. */
  datatype CloneOutcome = CloneOutcome(exitCode: int, created: Option<Dir>)

  /** How a module got its working copy, if it did. */
  datatype Resolution =
    | AlreadyCloned(path: string)   // the expected clone folder exists
    | FoundRenamed(path: string)    // a differently named folder holds it
    | Cloned(path: string)          // cloned now and found afterwards
    | CloneFailed                   // the clone exited non-zero
    | NameMismatch                  // cloned, but no folder matches the module

  function PathOf(r: Resolution): Option<string>
  {
    match r
    case AlreadyCloned(p) => Some(p)
    case FoundRenamed(p) => Some(p)
    case Cloned(p) => Some(p)
    case _ => None
  }

  datatype Resolved = Resolved(resolution: Resolution, actions: seq<Action>, workspace: Workspace)

  /** The workspace after a clone: the created folder is appended to the
      listing. `fs.readdirSync` lists names in sorted order, so where two
      folders match the same module, which one comes last may differ. */
  function Grow(ws: Workspace, created: Option<Dir>): Workspace
  {
    if created.Some? then ws.(folders := ws.folders + [created.value]) else ws
  }

  /** One iteration of cloneRepositories for the module declared under
      `name`, with `folderOf` deriving the clone folder from the git URL.
      A module without a git URL makes the original throw a TypeError when
      it derives the folder name. */
  function ResolveModule(root: string, ws: Workspace, existing: map<string, string>, name: string, m: StaticModule,
                         cloneOf: Action -> CloneOutcome, folderOf: string -> string): (r: Result<Resolved>)
    ensures r.Ok? <==> m.gitUrl.Some?
    ensures r.Ok? && FolderExists(ws, folderOf(m.gitUrl.value)) ==>
      var path := Join(root, folderOf(m.gitUrl.value));
      r.value == Resolved(AlreadyCloned(path), CheckoutBranch(path, Some(m)), ws)
    ensures r.Ok? && !FolderExists(ws, folderOf(m.gitUrl.value)) && name in existing ==>
      r.value == Resolved(FoundRenamed(existing[name]), CheckoutBranch(existing[name], Some(m)), ws)
    ensures r.Ok? && !FolderExists(ws, folderOf(m.gitUrl.value)) && name !in existing ==>
      var clone := Exec(CloneCommand(m.gitUrl.value, m.gitBranch), root);
      && r.value.actions == [clone]
      && (cloneOf(clone).exitCode != 0 ==> r.value.resolution == CloneFailed && r.value.workspace == ws)
      && (cloneOf(clone).exitCode == 0 ==>
            && r.value.workspace == Grow(ws, cloneOf(clone).created)
            && var found := FindModulePath(root, r.value.workspace, m.name);
               r.value.resolution == if found.Some? && found.value != "" then Cloned(found.value) else NameMismatch)
  {
    match m.gitUrl
    case None => Err("TypeError: gitUrl is undefined")
    case Some(url) =>
      var folder := folderOf(url);
      var path := Join(root, folder);
      if FolderExists(ws, folder) then
        Ok(Resolved(AlreadyCloned(path), CheckoutBranch(path, Some(m)), ws))
      else if name in existing then
        Ok(Resolved(FoundRenamed(existing[name]), CheckoutBranch(existing[name], Some(m)), ws))
      else
        var clone := Exec(CloneCommand(url, m.gitBranch), root);
        var outcome := cloneOf(clone);
        if outcome.exitCode != 0 then Ok(Resolved(CloneFailed, [clone], ws))
        else
          var ws1 := Grow(ws, outcome.created);
          var found := FindModulePath(root, ws1, m.name);
          Ok(Resolved(if found.Some? && found.value != "" then Cloned(found.value) else NameMismatch, [clone], ws1))
  }

  /** The two folder names lead to different steps: for a URL with ".git"
      before its last '/' and no clone of <name> present, the program as
      written tests the workspace root itself, finds it, and only checks
      out there; the corrected name clones. */
  lemma AsWrittenSkipsClone(root: string, ws: Workspace, existing: map<string, string>, key: string, m: StaticModule,
                            cloneOf: Action -> CloneOutcome, prefix: string, name: string, j: nat)
    requires m.gitUrl == Some(prefix + "/" + name)
    requires OccursAt(prefix, ".git", j) && name != "" && '/' !in name && '.' !in name
    requires ws.present && !FolderExists(ws, name) && key !in existing
    ensures ResolveModule(root, ws, existing, key, m, cloneOf, GitFolderNameAsWritten) ==
      Ok(Resolved(AlreadyCloned(Join(root, "")), CheckoutBranch(Join(root, ""), Some(m)), ws))
    ensures ResolveModule(root, ws, existing, key, m, cloneOf, GitFolderName).value.actions ==
      [Exec(CloneCommand(m.gitUrl.value, m.gitBranch), root)]
  {
    AsWrittenLosesName(prefix, name, j);
  }

  // ---------------------------------------------------------------------------
  // cloneRepositories
  // ---------------------------------------------------------------------------

  /** The outcome of cloneRepositories: one resolution per module handled,
      the commands issued, the workspace afterwards, and the exception
      that stopped the loop, if any. */
  datatype CloneRun = CloneRun(resolutions: seq<Resolution>, actions: seq<Action>, workspace: Workspace, failure: Option<string>)

  /** The repository roots: the paths of the resolutions that have one, in
      the same order. */
  function Roots(rs: seq<Resolution>): (roots: seq<string>)
    ensures |roots| <= |rs|
    decreases |rs|
  {
    if |rs| == 0 then []
    else (if PathOf(rs[0]).Some? then [PathOf(rs[0]).value] else []) + Roots(rs[1..])
  }

  /** Some resolution of `rs` has path `p`. */
  predicate ResolvedTo(rs: seq<Resolution>, p: string)
  {
    exists j | 0 <= j < |rs| :: PathOf(rs[j]) == Some(p)
  }

  /** A path is a repository root exactly when some resolution has it. */
  lemma {:induction false} RootsMembers(rs: seq<Resolution>, p: string)
    ensures p in Roots(rs) <==> ResolvedTo(rs, p)
    decreases |rs|
  {
    if |rs| > 0 {
      var head := if PathOf(rs[0]).Some? then [PathOf(rs[0]).value] else [];
      assert Roots(rs) == head + Roots(rs[1..]);
      RootsMembers(rs[1..], p);
      if ResolvedTo(rs[1..], p) {
        var j :| 0 <= j < |rs[1..]| && PathOf(rs[1..][j]) == Some(p);
        assert PathOf(rs[j + 1]) == Some(p);
      }
      if ResolvedTo(rs, p) {
        var j :| 0 <= j < |rs| && PathOf(rs[j]) == Some(p);
        if j > 0 {
          assert PathOf(rs[1..][j - 1]) == Some(p);
        }
      }
    }
  }

  lemma {:induction false} RootsAppend(a: seq<Resolution>, b: seq<Resolution>)
    ensures Roots(a + b) == Roots(a) + Roots(b)
    decreases |a|
  {
    if |a| == 0 {
      assert a + b == b;
    } else {
      var head := if PathOf(a[0]).Some? then [PathOf(a[0]).value] else [];
      assert (a + b)[0] == a[0];
      assert (a + b)[1..] == a[1..] + b;
      assert Roots(a + b) == head + Roots(a[1..] + b);
      assert Roots(a) == head + Roots(a[1..]);
      RootsAppend(a[1..], b);
    }
  }

  /** A table whose listed keys all have records. */
  predicate Declares(table: ModuleTable)
  {
    forall k | 0 <= k < |table.order| :: table.order[k] in table.byName
  }

  predicate HasUrlsFrom(table: ModuleTable, i: nat)
    requires Declares(table)
  {
    forall k | i <= k < |table.order| :: table.byName[table.order[k]].info.gitUrl.Some?
  }

  lemma HasUrlsStep(table: ModuleTable, i: nat)
    requires Declares(table) && i < |table.order|
    ensures HasUrlsFrom(table, i) <==>
      table.byName[table.order[i]].info.gitUrl.Some? && HasUrlsFrom(table, i + 1)
  {
  }

  /** The loop of cloneRepositories from the `i`-th declared key on. */
  function CloneFrom(root: string, ws: Workspace, existing: map<string, string>, table: ModuleTable, i: nat,
                     cloneOf: Action -> CloneOutcome, folderOf: string -> string): (r: CloneRun)
    requires Declares(table) && i <= |table.order|
    ensures r.failure.None? <==> HasUrlsFrom(table, i)
    ensures r.failure.None? ==> |r.resolutions| == |table.order| - i
    ensures |r.resolutions| <= |table.order| - i
    decreases |table.order| - i
  {
    if i == |table.order| then CloneRun([], [], ws, None)
    else
      var name := table.order[i];
      HasUrlsStep(table, i);
      match ResolveModule(root, ws, existing, name, table.byName[name].info, cloneOf, folderOf)
      case Err(msg) => CloneRun([], [], ws, Some(msg))
      case Ok(step) =>
        var rest := CloneFrom(root, step.workspace, existing, table, i + 1, cloneOf, folderOf);
        CloneRun([step.resolution] + rest.resolutions, step.actions + rest.actions, rest.workspace, rest.failure)
  }

  /** The resolutions of a sequence of per-module steps, in order. */
  function ResolutionsOf(steps: seq<Resolved>): (rs: seq<Resolution>)
    ensures |rs| == |steps|
    ensures forall k | 0 <= k < |steps| :: rs[k] == steps[k].resolution
  {
    seq(|steps|, k requires 0 <= k < |steps| => steps[k].resolution)
  }

  /** The commands of a sequence of per-module steps, concatenated. */
  function ActionsOf(steps: seq<Resolved>): seq<Action>
    decreases |steps|
  {
    if |steps| == 0 then [] else steps[0].actions + ActionsOf(steps[1..])
  }

  /** The first step resolves the i-th declared module in `ws`, and the
      remaining steps chain on from the workspace it left behind. */
  ghost predicate Chained(root: string, ws: Workspace, existing: map<string, string>, table: ModuleTable, i: nat,
                          cloneOf: Action -> CloneOutcome, folderOf: string -> string, steps: seq<Resolved>)
    requires Declares(table)
    decreases |steps|
  {
    |steps| == 0 ||
    (&& i < |table.order|
     && ResolveModule(root, ws, existing, table.order[i], table.byName[table.order[i]].info, cloneOf, folderOf) == Ok(steps[0])
     && Chained(root, steps[0].workspace, existing, table, i + 1, cloneOf, folderOf, steps[1..]))
  }

  /** The workspace after a chain of steps. */
  function LastWorkspace(ws: Workspace, steps: seq<Resolved>): Workspace
  {
    if |steps| == 0 then ws else steps[|steps| - 1].workspace
  }

  /** A clone run is a chain of per-module steps: its resolutions and its
      commands are theirs, in the order of the declared keys, its workspace
      is the last one, and it stops early exactly at a module without a git
      URL. */
  lemma CloneFromChains(root: string, ws: Workspace, existing: map<string, string>, table: ModuleTable, i: nat,
                        cloneOf: Action -> CloneOutcome, folderOf: string -> string)
    requires Declares(table) && i <= |table.order|
    ensures exists steps :: ChainOf(root, ws, existing, table, i, cloneOf, folderOf, steps, CloneFrom(root, ws, existing, table, i, cloneOf, folderOf))
  {
    var steps := ChainOfCloneFrom(root, ws, existing, table, i, cloneOf, folderOf);
    ChainWitness(root, ws, existing, table, i, cloneOf, folderOf, steps, CloneFrom(root, ws, existing, table, i, cloneOf, folderOf));
  }

  /** The chain behind a clone run, built step by step. */
  lemma {:induction false} ChainOfCloneFrom(root: string, ws: Workspace, existing: map<string, string>, table: ModuleTable, i: nat,
                                            cloneOf: Action -> CloneOutcome, folderOf: string -> string)
      returns (steps: seq<Resolved>)
    requires Declares(table) && i <= |table.order|
    ensures ChainOf(root, ws, existing, table, i, cloneOf, folderOf, steps, CloneFrom(root, ws, existing, table, i, cloneOf, folderOf))
    decreases |table.order| - i
  {
    var r := CloneFrom(root, ws, existing, table, i, cloneOf, folderOf);
    steps := [];
    assert ResolutionsOf(steps) == [] && ActionsOf(steps) == [] && LastWorkspace(ws, steps) == ws;
    if i < |table.order| {
      var name := table.order[i];
      match ResolveModule(root, ws, existing, name, table.byName[name].info, cloneOf, folderOf)
      case Err(_) =>
      case Ok(step) =>
        var tail := ChainOfCloneFrom(root, step.workspace, existing, table, i + 1, cloneOf, folderOf);
        var rest := CloneFrom(root, step.workspace, existing, table, i + 1, cloneOf, folderOf);
        ChainCons(root, ws, existing, table, i, cloneOf, folderOf, step, tail, rest);
        steps := [step] + tail;
    }
  }

  lemma ChainWitness(root: string, ws: Workspace, existing: map<string, string>, table: ModuleTable, i: nat,
                     cloneOf: Action -> CloneOutcome, folderOf: string -> string, steps: seq<Resolved>, r: CloneRun)
    requires Declares(table) && ChainOf(root, ws, existing, table, i, cloneOf, folderOf, steps, r)
    ensures exists s :: ChainOf(root, ws, existing, table, i, cloneOf, folderOf, s, r)
  {
  }

  /** `steps` is the chain behind the run `r`. */
  ghost predicate ChainOf(root: string, ws: Workspace, existing: map<string, string>, table: ModuleTable, i: nat,
                          cloneOf: Action -> CloneOutcome, folderOf: string -> string, steps: seq<Resolved>, r: CloneRun)
    requires Declares(table)
  {
    && Chained(root, ws, existing, table, i, cloneOf, folderOf, steps)
    && r.resolutions == ResolutionsOf(steps)
    && r.actions == ActionsOf(steps)
    && r.workspace == LastWorkspace(ws, steps)
    && (r.failure.None? <==> i + |steps| == |table.order|)
    && (r.failure.Some? ==> i + |steps| < |table.order| && table.byName[table.order[i + |steps|]].info.gitUrl.None?)
  }

  /** Prepending the first step to the chain of the rest of the run. */
  lemma ChainCons(root: string, ws: Workspace, existing: map<string, string>, table: ModuleTable, i: nat,
                  cloneOf: Action -> CloneOutcome, folderOf: string -> string, step: Resolved, tail: seq<Resolved>, rest: CloneRun)
    requires Declares(table) && i < |table.order|
    requires ResolveModule(root, ws, existing, table.order[i], table.byName[table.order[i]].info, cloneOf, folderOf) == Ok(step)
    requires ChainOf(root, step.workspace, existing, table, i + 1, cloneOf, folderOf, tail, rest)
    ensures ChainOf(root, ws, existing, table, i, cloneOf, folderOf, [step] + tail,
                    CloneRun([step.resolution] + rest.resolutions, step.actions + rest.actions, rest.workspace, rest.failure))
  {
    ChainedCons(root, ws, existing, table, i, cloneOf, folderOf, step, tail);
    StepsCons(ws, step, tail);
  }

  lemma ChainedCons(root: string, ws: Workspace, existing: map<string, string>, table: ModuleTable, i: nat,
                    cloneOf: Action -> CloneOutcome, folderOf: string -> string, step: Resolved, tail: seq<Resolved>)
    requires Declares(table) && i < |table.order|
    requires ResolveModule(root, ws, existing, table.order[i], table.byName[table.order[i]].info, cloneOf, folderOf) == Ok(step)
    requires Chained(root, step.workspace, existing, table, i + 1, cloneOf, folderOf, tail)
    ensures Chained(root, ws, existing, table, i, cloneOf, folderOf, [step] + tail)
  {
    assert ([step] + tail)[1..] == tail;
  }

  lemma StepsCons(ws: Workspace, step: Resolved, tail: seq<Resolved>)
    ensures ResolutionsOf([step] + tail) == [step.resolution] + ResolutionsOf(tail)
    ensures ActionsOf([step] + tail) == step.actions + ActionsOf(tail)
    ensures LastWorkspace(ws, [step] + tail) == LastWorkspace(step.workspace, tail)
  {
    assert ([step] + tail)[1..] == tail;
  }

  /** What a step leaves of the workspace: the same root, with at most a
      new folder appended. */
  lemma ResolveModuleGrows(root: string, ws: Workspace, existing: map<string, string>, name: string, m: StaticModule,
                           cloneOf: Action -> CloneOutcome, folderOf: string -> string, f: string)
    requires ResolveModule(root, ws, existing, name, m, cloneOf, folderOf).Ok?
    ensures FolderExists(ws, f) ==> FolderExists(ResolveModule(root, ws, existing, name, m, cloneOf, folderOf).value.workspace, f)
  {
    var ws1 := ResolveModule(root, ws, existing, name, m, cloneOf, folderOf).value.workspace;
    if FolderExists(ws, f) && f != "" {
      var k :| 0 <= k < |ws.folders| && ws.folders[k].name == f;
      assert ws1.folders[k] == ws.folders[k];
    }
  }

  /** A module whose clone folder is already present in the workspace is
      never cloned but taken as it is; one found up front under another
      folder name is taken from there unless its clone folder has appeared
      by then. Either way it gets a path. */
  lemma PresentModulesNotCloned(root: string, ws: Workspace, existing: map<string, string>, table: ModuleTable, i: nat,
                                 cloneOf: Action -> CloneOutcome, folderOf: string -> string, k: nat)
    requires Declares(table) && i <= |table.order|
    requires k < |CloneFrom(root, ws, existing, table, i, cloneOf, folderOf).resolutions|
    ensures i + k < |table.order|
    ensures var m := table.byName[table.order[i + k]].info;
      var res := CloneFrom(root, ws, existing, table, i, cloneOf, folderOf).resolutions[k];
      && m.gitUrl.Some?
      && (FolderExists(ws, folderOf(m.gitUrl.value)) ==> res == AlreadyCloned(Join(root, folderOf(m.gitUrl.value))))
      && (table.order[i + k] in existing ==>
            res == AlreadyCloned(Join(root, folderOf(m.gitUrl.value))) || res == FoundRenamed(existing[table.order[i + k]]))
  {
    var steps := ChainOfCloneFrom(root, ws, existing, table, i, cloneOf, folderOf);
    ChainedPresent(root, ws, existing, table, i, cloneOf, folderOf, steps, k);
  }

  /** A step's resolution against the workspace it started from. */
  predicate TakesPresent(root: string, ws: Workspace, existing: map<string, string>, name: string, m: StaticModule,
                         folderOf: string -> string, res: Resolution)
  {
    && m.gitUrl.Some?
    && (FolderExists(ws, folderOf(m.gitUrl.value)) ==> res == AlreadyCloned(Join(root, folderOf(m.gitUrl.value))))
    && (name in existing ==> res == AlreadyCloned(Join(root, folderOf(m.gitUrl.value))) || res == FoundRenamed(existing[name]))
  }

  /** The k-th step of a chain takes what was present before the first. */
  lemma {:induction false} ChainedPresent(root: string, ws: Workspace, existing: map<string, string>, table: ModuleTable, i: nat,
                                          cloneOf: Action -> CloneOutcome, folderOf: string -> string, steps: seq<Resolved>, k: nat)
    requires Declares(table) && Chained(root, ws, existing, table, i, cloneOf, folderOf, steps) && k < |steps|
    ensures i + k < |table.order|
    ensures TakesPresent(root, ws, existing, table.order[i + k], table.byName[table.order[i + k]].info, folderOf, steps[k].resolution)
    decreases k
  {
    var name := table.order[i];
    var m0 := table.byName[name].info;
    if k == 0 {
      assert ResolveModule(root, ws, existing, name, m0, cloneOf, folderOf) == Ok(steps[0]);
    } else {
      ChainedPresent(root, steps[0].workspace, existing, table, i + 1, cloneOf, folderOf, steps[1..], k - 1);
      assert steps[1..][k - 1] == steps[k];
      var m := table.byName[table.order[i + k]].info;
      ResolveModuleGrows(root, ws, existing, name, m0, cloneOf, folderOf, folderOf(m.gitUrl.value));
    }
  }

  /** cloneRepositories: the root is taken as already absolute, and
      `folderOf` is the clone-folder function (GitFolderNameAsWritten for
      the program as written). */
  function CloneRepositories(root: string, ws: Workspace, table: ModuleTable, cloneOf: Action -> CloneOutcome, folderOf: string -> string): (r: CloneRun)
    requires Declares(table)
    ensures r.failure.None? <==> HasUrlsFrom(table, 0)
    ensures |Roots(r.resolutions)| <= |table.order|
  {
    CloneFrom(root, ws, ExistingModules(root, ws, table.byName.Keys), table, 0, cloneOf, folderOf)
  }

  /** cloneRepositories is the chain of per-module steps from the first
      declared key, against the clones found up front. */
  lemma CloneRepositoriesChains(root: string, ws: Workspace, table: ModuleTable, cloneOf: Action -> CloneOutcome, folderOf: string -> string)
    requires Declares(table)
    ensures exists steps :: ChainOf(root, ws, ExistingModules(root, ws, table.byName.Keys), table, 0, cloneOf, folderOf, steps,
                                    CloneRepositories(root, ws, table, cloneOf, folderOf))
  {
    var existing := ExistingModules(root, ws, table.byName.Keys);
    var steps := ChainOfCloneFrom(root, ws, existing, table, 0, cloneOf, folderOf);
    ChainWitness(root, ws, existing, table, 0, cloneOf, folderOf, steps, CloneRepositories(root, ws, table, cloneOf, folderOf));
  }

  /** The k-th declared module is never cloned when its clone folder is
      in the workspace up front, and is taken from there or from the last
      folder up front that matches it when there is one. */
  lemma CloneRepositoriesKeepsPresent(root: string, ws: Workspace, table: ModuleTable, cloneOf: Action -> CloneOutcome,
                                      folderOf: string -> string, k: nat)
    requires Declares(table)
    requires k < |CloneRepositories(root, ws, table, cloneOf, folderOf).resolutions|
    ensures k < |table.order|
    ensures var name := table.order[k];
      var m := table.byName[name].info;
      var res := CloneRepositories(root, ws, table, cloneOf, folderOf).resolutions[k];
      && m.gitUrl.Some?
      && (FolderExists(ws, folderOf(m.gitUrl.value)) ==> res == AlreadyCloned(Join(root, folderOf(m.gitUrl.value))))
      && (ws.present && (exists j | 0 <= j < |ws.folders| :: MatchDir(ws.folders[j], table.byName.Keys) == Some(name)) ==>
            || res == AlreadyCloned(Join(root, folderOf(m.gitUrl.value)))
            || exists j :: LastMatchAt(ws.folders, table.byName.Keys, name, j) && res == FoundRenamed(Join(root, ws.folders[j].name)))
  {
    var existing := ExistingModules(root, ws, table.byName.Keys);
    PresentModulesNotCloned(root, ws, existing, table, 0, cloneOf, folderOf, k);
    MatchedFoldersFacts(root, ws.folders, table.byName.Keys, table.order[k]);
  }

  /** The clone commands of the modules from the `i`-th on. */
  function CloneCommandsFrom(root: string, table: ModuleTable, i: nat): seq<Action>
    requires Declares(table) && i <= |table.order| && HasUrlsFrom(table, i)
    decreases |table.order| - i
  {
    if i == |table.order| then []
    else
      var m := table.byName[table.order[i]].info;
      [Exec(CloneCommand(m.gitUrl.value, m.gitBranch), root)] + CloneCommandsFrom(root, table, i + 1)
  }

  /** With nothing of the workspace on disk and every clone failing, each
      declared module gets exactly one clone attempt and none a path. */
  lemma {:induction false} NothingPresentClonesEach(root: string, ws: Workspace, existing: map<string, string>, table: ModuleTable, i: nat,
                                                    cloneOf: Action -> CloneOutcome, folderOf: string -> string)
    requires Declares(table) && i <= |table.order| && HasUrlsFrom(table, i)
    requires forall k | i <= k < |table.order| ::
      !FolderExists(ws, folderOf(table.byName[table.order[k]].info.gitUrl.value)) && table.order[k] !in existing
    requires forall a :: cloneOf(a).exitCode != 0
    ensures var r := CloneFrom(root, ws, existing, table, i, cloneOf, folderOf);
      && r.actions == CloneCommandsFrom(root, table, i)
      && |r.actions| == |table.order| - i
      && Roots(r.resolutions) == []
    decreases |table.order| - i
  {
    if i < |table.order| {
      var name := table.order[i];
      var m := table.byName[name].info;
      var step := ResolveModule(root, ws, existing, name, m, cloneOf, folderOf).value;
      assert step == Resolved(CloneFailed, [Exec(CloneCommand(m.gitUrl.value, m.gitBranch), root)], ws);
      NothingPresentClonesEach(root, ws, existing, table, i + 1, cloneOf, folderOf);
      var rest := CloneFrom(root, ws, existing, table, i + 1, cloneOf, folderOf);
      assert Roots([CloneFailed] + rest.resolutions) == Roots(rest.resolutions) by {
        RootsAppend([CloneFailed], rest.resolutions);
      }
    }
  }

  /** In an empty workspace, cloneRepositories attempts one clone per
      declared module; if all fail, no repository root results. */
  lemma EmptyWorkspaceClonesEach(root: string, table: ModuleTable, cloneOf: Action -> CloneOutcome, folderOf: string -> string)
    requires Declares(table) && HasUrlsFrom(table, 0)
    requires forall a :: cloneOf(a).exitCode != 0
    ensures var r := CloneRepositories(root, Workspace(false, []), table, cloneOf, folderOf);
      && r.actions == CloneCommandsFrom(root, table, 0)
      && |r.actions| == |table.order|
      && Roots(r.resolutions) == []
  {
    NothingPresentClonesEach(root, Workspace(false, []), map[], table, 0, cloneOf, folderOf);
  }
}
