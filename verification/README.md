# dev-env-installer, modelled in Dafny

dev-env-installer manages a workspace of several git repositories that depend on each other
as npm packages. A workspace descriptor (a JSON map from module name to git URL, branch,
build and test commands, and a typings flag) declares the modules. The tool does four things:

- It clones every declared module next to the others, or finds an existing clone.
- It installs each clone.
- It replaces each clone's installed copies of its sibling modules with links to the sibling
  repositories. This happens through `npm link` (the indirect strategy) or through direct
  symbolic links.
- It runs bulk `git pull`, build and test over the modules found on disk, and bumps the
  versions of the modules that changed since their last tag.

This project models the decision logic of that core as pure functions over immutable data.
It proves what the original promises about it. The model's modules follow the source files:

| Dafny module | models |
|---|---|
| `ModuleDetector` (module_detector.dfy) | src/linkedModuleDetector.ts: the declared-module table, folder matching, the dependency walk, getModules |
| `Materializer` (materializer.dfy) | src/devEnvInstaller.ts lines 8-129: clone folder names, existing clones, the three-way resolution, clone and checkout commands |
| `Linker` (linker.dfy) | src/devEnvInstaller.ts lines 131-297: setupModules, both linking strategies, setUp and createSymlinks |
| `DevUtils` (dev_utils.dfy) | src/devUtils.ts: pullAll, buildAll, testAll |
| `Versions` (versions.dfy) | src/versionUpdater.ts: incVersion, updateVersion, getNewVersion and the git-output scans of GitHelper |
| `CliArgs` (cli_args.dfy) | src/exportedUtils.ts: getCliArgumentByName, hasCliArgument, isWindows |
| `Wrappers`, `Strings`, `JsValues`, `Paths`, `Commands` | shared helpers and JavaScript semantics |

The shared helpers cover:

- `Option` and `Result`;
- JavaScript `lastIndexOf`, `split`, digit strings and `parseInt` on digit runs;
- truthiness and string conversion;
- `path.join` and `path.basename`;
- the trace of effects.

The outside world enters the model as data or as oracle parameters:

- **Filesystem.** The filesystem is a finite tree of `Dir` nodes. Each node has a name, an optional package.json name, a real path and an optional `node_modules` listing.
- **Repository roots.** Each root is a `Repo` value: its parsed manifest, or the fact that it does not parse, plus its `node_modules` entries.
- **Commands.** Every command becomes an `Action` in an ordered trace. Its exit code is a function `exitOf: Action -> int`.
- **Cloning.** A clone is an oracle that gives the exit code and the folder the clone created.
- **Clone folder names.** Every member that derives a clone folder from a git URL takes the derivation as a parameter `folderOf`. The program as written is the instance `GitFolderNameAsWritten`; `GitFolderName` is the corrected one (see Findings). Every contract about those members holds for both.
- **Git output.** A function `git: string -> Option<string>` maps a command line to its output, or `None` when the command fails.
- **Exceptions.** Exceptions the original throws become `Result` errors or failed setup runs. Every failed run carries the message and the commands performed before the throw.

Some decisions follow the code rather than the project's prose description:

- `getModules` returns modules in descriptor key order, not in discovery order.
- A module's `fsLocation` is overwritten by every match, so the last visit wins.
- The bulk runners swallow command failures: `execProcess` catches them at src/devUtils.ts:45-53. They do not stop at the first failure.

## Model

| member | source | states |
|---|---|---|
| CliArgs.GetCliArgumentByName | src/exportedUtils.ts:61-69 | A value is returned iff the name occurs at some index that is not the last. The value is the element after the first occurrence of the name. Otherwise the result is null. |
| CliArgs.HasCliArgument | src/exportedUtils.ts:71-81 | Without mustHaveValue: true iff the name occurs anywhere in argv. With it: true iff the name occurs at an index that is not the last. |
| CliArgs.HasValueAgrees | src/exportedUtils.ts:61-81 | `hasCliArgument(name, true)` holds exactly when `getCliArgumentByName(name)` is non-null. |
| CliArgs.IsWindows | src/exportedUtils.ts:97-100 | True iff the platform string starts with "win". |
| ModuleDetector.ResolveBranch | src/linkedModuleDetector.ts:101-108 | A truthy branch is kept verbatim. A falsy boolean gives null. Any other falsy value (absent, null, "", 0) gives "master". The result is truthy iff it is not null. |
| ModuleDetector.StaticRecord | src/linkedModuleDetector.ts:110-119 | The record takes its name from the key, and copies gitUrl, build and test. The branch follows the branch policy. installTypings keeps its truthiness and becomes `false` when falsy. |
| ModuleDetector.Store | src/linkedModuleDetector.ts:119 | Assigning a key updates the module map. A new key is appended to the key order; an existing key keeps its place. |
| ModuleDetector.LoadModulesStaticInfo | src/linkedModuleDetector.ts:87-123 | The table's keys are exactly the descriptor's keys. Every key in the order has a record, and the order holds no duplicates. |
| ModuleDetector.LoadedValue | src/linkedModuleDetector.ts:98-119 | The record under a key is the one built from that key's last descriptor entry. |
| ModuleDetector.LoadedInKeyOrder | src/linkedModuleDetector.ts:98-122 | With distinct keys, the table's order is the descriptor key order. Each key holds the record built from its own entry. |
| ModuleDetector.LoadedFresh | src/linkedModuleDetector.ts:110-119 | A freshly loaded record has no location and no dependencies. |
| ModuleDetector.ModuleFromFolder | src/linkedModuleDetector.ts:56-68 | A declared, non-empty folder base name wins. Otherwise a declared, non-empty package.json name is used. Otherwise there is no match. A match is always a declared module. |
| ModuleDetector.VisitsFrom | src/linkedModuleDetector.ts:11-33 | The walk's visits name only declared modules. Their parents are declared modules too. |
| ModuleDetector.VisitsFromFound | src/linkedModuleDetector.ts:8-33 | A visit is in the trace iff it is found in the reference sense: a sub-folder that matches a declared module, reached from the start folder through matched folders only (each searched in its node_modules when present, else itself), with the nearest matched ancestor's module as its parent and its real path. |
| ModuleDetector.WalkFound | src/linkedModuleDetector.ts:37-47 | The whole walk visits the root folder iff it matches, and otherwise exactly what is found below the root, with the root's match as the parent of the top level. |
| ModuleDetector.AddDependency | src/linkedModuleDetector.ts:22-30 | The child becomes a dependency and existing entries keep their order. A list without duplicates stays without duplicates. |
| ModuleDetector.ApplyVisitFacts | src/linkedModuleDetector.ts:17-30 | One match overwrites the matched module's location with the folder's real path. It appends the matched module to the parent's dependencies unless a dependency of that name is already listed. No other location, dependency list or declared data changes. |
| ModuleDetector.DetectModulesInFolder | src/linkedModuleDetector.ts:8-35 | Detection never adds or drops a declared module. |
| ModuleDetector.DetectIsReplay | src/linkedModuleDetector.ts:8-35 | The recursive, state-mutating detection equals folding its pre-order visit trace over the module map. The trace uses node_modules when present, else the folder, and recurses only into matched folders. |
| ModuleDetector.ReplayKeepsInfo | src/linkedModuleDetector.ts:17-32 | The walk never changes a module's declared data. |
| ModuleDetector.ReplayLocation | src/linkedModuleDetector.ts:20 | A module's location is the real path of its last visit, or its seed when it is never visited. |
| ModuleDetector.ReplayDependencies | src/linkedModuleDetector.ts:22-30 | A module's dependencies are its seed list extended, without repeats, by every module visited as its child. |
| ModuleDetector.DetectFromRoot | src/linkedModuleDetector.ts:41-47 | Seeding the root and walking from it keeps exactly the declared modules. |
| ModuleDetector.DetectFromRootIsReplay | src/linkedModuleDetector.ts:42-47 | Root seeding plus detection equals replaying the root's own visit followed by the walk below it. |
| ModuleDetector.GetModules | src/linkedModuleDetector.ts:37-54 | One entry per declared module, found on disk or not. Entries come in descriptor key order and carry that module's declared data. |
| ModuleDetector.GetModulesFacts | src/linkedModuleDetector.ts:37-54 | Each entry's location is its last visit's real path, or none. Its dependencies are exactly the modules visited as its children, without duplicates. |
| Materializer.GitFolderNameAsWritten | src/devEnvInstaller.ts:8-15 | As written, with `cut` the position of the last ".git" anywhere in the URL (its end when there is none): the result is a suffix of the URL cut there and holds no '/'. It is "" when a '/' lies at or after `cut`, and otherwise the last segment of the URL cut there. |
| Materializer.AsWrittenStripsSuffix | src/devEnvInstaller.ts:8-15 | As written, ".../x.git" gives "x". |
| Materializer.AsWrittenPlainUrl | src/devEnvInstaller.ts:8-15 | As written, ".../x" gives "x" when the URL contains no ".git" at all. |
| Materializer.AsWrittenLosesName | src/devEnvInstaller.ts:9-13 | As written, a URL with ".git" before its last '/' and a last segment without '.' gives "". The corrected function gives the segment. |
| Materializer.AsWrittenLosesNameExample | src/devEnvInstaller.ts:8-15 | "https://my.gitlab.com/org/repo" gives "" as written, and "repo" when corrected. |
| Materializer.GitFolderName | src/devEnvInstaller.ts:8-15 | Corrected: the URL's last path segment, with a trailing ".git" removed. The result contains no '/'. |
| Materializer.GitFolderNameOfRepoUrl | src/devEnvInstaller.ts:8-15 | Corrected: ".../x.git" and ".../x" both give "x" (the second when x does not end in ".git"). |
| Materializer.MatchedFolders | src/devEnvInstaller.ts:24-31 | Existing folders are mapped only under declared module names. |
| Materializer.MatchedFoldersFacts | src/devEnvInstaller.ts:24-31 | A module appears iff some folder of the root matches it. Its path is the root joined with the last matching folder. |
| Materializer.ExistingModules | src/devEnvInstaller.ts:17-34 | A missing root gives an empty map. Otherwise every matching folder is recorded by module name, and the last match wins. |
| Materializer.FindModulePath | src/devEnvInstaller.ts:36-52 | A missing root gives null. Otherwise a path is found iff some folder matches the module's name, and it is the last such folder. |
| Materializer.CloneCommand | src/devEnvInstaller.ts:98-103 | The command always starts with "git clone <url>". It adds " --branch <b> --single-branch" iff the branch is truthy, and is exactly "git clone <url>" otherwise. |
| Materializer.CheckoutBranch | src/devEnvInstaller.ts:120-129 | Nothing is issued for an absent module or a falsy branch. Otherwise exactly one "git checkout <b>" runs in the given folder. |
| Materializer.ResolveModule | src/devEnvInstaller.ts:69-114 | A module without a git URL throws. An existing expected folder (named by `folderOf`) wins and only checks out. An existing renamed folder comes next. Otherwise one clone runs: a failure adds no path and leaves the workspace unchanged, and a success yields the found path or a name mismatch. |
| Materializer.AsWrittenSkipsClone | src/devEnvInstaller.ts:69-82 | For a URL with ".git" before its last '/', a module not found up front and no folder of its name present, the program as written tests the workspace root itself, finds it, and only checks out there. The corrected folder name issues the clone command instead. |
| Materializer.ResolveModuleGrows | src/devEnvInstaller.ts:71-108 | A step never removes a folder from the workspace. |
| Materializer.Roots | src/devEnvInstaller.ts:67-117 | Each module contributes at most one repository root. |
| Materializer.RootsMembers | src/devEnvInstaller.ts:67-117 | A path is in the list of roots iff some resolution in the list carries it (present, renamed, or cloned and found). |
| Materializer.CloneFrom | src/devEnvInstaller.ts:69-115 | The loop completes iff every remaining module has a git URL. Each completed module yields one resolution. |
| Materializer.CloneFromChains | src/devEnvInstaller.ts:67-118 | The loop is a chain of per-module steps: step k resolves the module under key order[i+k] in the workspace the previous step left. Its resolutions and commands are the steps' in key order, and its workspace is the last step's. It stops early exactly at a module without a git URL. |
| Materializer.PresentModulesNotCloned | src/devEnvInstaller.ts:71-93 | Every module the loop handles has a git URL. One whose clone folder is present at the start resolves to that folder. One found up front resolves to its clone folder or to the found path. Neither is cloned. |
| Materializer.CloneRepositories | src/devEnvInstaller.ts:59-118 | cloneRepositories throws iff some declared module lacks a git URL. It returns at most one root per declared module. |
| Materializer.CloneRepositoriesChains | src/devEnvInstaller.ts:59-118 | cloneRepositories is the chain of per-module steps from the first key, against the clones found up front. |
| Materializer.CloneRepositoriesKeepsPresent | src/devEnvInstaller.ts:67-93 | The k-th module resolves to its clone folder when that is present up front. When some folder matches it up front, it resolves to its clone folder or to the last such folder. |
| Materializer.NothingPresentClonesEach | src/devEnvInstaller.ts:98-108 | When nothing is present and every clone fails, one clone command is issued per module, in key order, and no root results. |
| Materializer.EmptyWorkspaceClonesEach | src/devEnvInstaller.ts:59-118 | On a missing root folder where every clone fails, one clone per declared module is attempted and no root is returned. |
| Linker.RunPlanFacts | src/devEnvInstaller.ts:131-159 | A forEach of checked commands runs commands in order. It stops at the first failing command or throw, carrying that step's message and the commands up to it. It finishes iff no step fails. |
| Linker.RunPlanAppend | src/devEnvInstaller.ts:258-277 | Running two phases in sequence equals running the first and, only if it finished, the second. |
| Linker.LinkEntryActions | src/devEnvInstaller.ts:188-201 | An indirect-strategy entry is deleted iff its real path is its own path and it matches a declared module. Its commands are all link-replacement commands, never symlinks. |
| Linker.MakeMissingActions | src/devEnvInstaller.ts:183-186 | node_modules is created iff it does not exist. |
| Linker.LinkStepsRemovals | src/devEnvInstaller.ts:182-202 | A path is deleted in one root iff it is a replaced entry of that root's node_modules. |
| Linker.IndirectRemovals | src/devEnvInstaller.ts:180-203 | Over all roots, a path is deleted iff some root replaces an entry at that path. |
| Linker.LinkPlanKinds | src/devEnvInstaller.ts:180-203 | The indirect strategy creates no symlinks. |
| Linker.Named | src/devEnvInstaller.ts:208-211 | Each root is paired with its base name, in order. |
| Linker.RepositoryMapLast | src/devEnvInstaller.ts:208-211 | A base name is in the repository map iff some root has it, and the later root wins. |
| Linker.SlotStepSymlink | src/devEnvInstaller.ts:240-254 | A slot gets a symlink iff all of these hold: the manifest lists the module in dependencies or optionalDependencies; a non-empty root is mapped under the module's clone folder name as `folderOf` gives it; the link is node_modules/<module> and targets that root. |
| Linker.SlotStepsSymlinks | src/devEnvInstaller.ts:240-254 | Over all declared modules, a symlink is made iff it is made for one of the modules' slots. |
| Linker.SymlinkStepsSymlinks | src/devEnvInstaller.ts:213-254 | A root makes a symlink iff its manifest parsed and some slot qualifies. Roots with no or unparsable package.json, or with neither dependency map, are skipped. |
| Linker.DirectSymlinks | src/devEnvInstaller.ts:205-256 | The direct strategy makes a symlink iff some root's slot qualifies, with the repository map built from all roots and looked up under `folderOf` of the module's git URL. |
| Linker.SymlinkPlanKinds | src/devEnvInstaller.ts:205-256 | The direct strategy has no checked commands: its only failure is a thrown TypeError for a listed module without a git URL. All its actions are link-replacement actions. |
| Linker.RegisterPhaseActions | src/devEnvInstaller.ts:131-138 | Registration issues only "npm link" commands. |
| Linker.InstallPhaseActions | src/devEnvInstaller.ts:140-147 | The install phase issues only "npm install" commands. |
| Linker.TypingsPhaseActions | src/devEnvInstaller.ts:149-159 | The typings phase issues only "typings install" commands. |
| Linker.TypingsStepsIff | src/devEnvInstaller.ts:149-159 | "typings install" runs in a root iff its manifest parses and its matched module asks for typings. The phase throws for the root iff its package.json does not parse. |
| Linker.ReplacePhaseActions | src/devEnvInstaller.ts:271-276 | Link replacement issues only replacement actions. It makes no symlink in the indirect strategy. |
| Linker.SetupPlanActions | src/devEnvInstaller.ts:258-277 | The setup plan is registration, then install, then typings, then link replacement. |
| Linker.SetupPlanOrdered | src/devEnvInstaller.ts:258-277 | The planned commands are ordered by phase. |
| Linker.SetupPhasesInOrder | src/devEnvInstaller.ts:258-277 | Whatever fails, the commands performed are ordered by phase. |
| Linker.SetupPlanKinds | src/devEnvInstaller.ts:263-276 | The direct strategy plans no registration. The indirect strategy plans no symlink. |
| Linker.StrategiesStayApart | src/devEnvInstaller.ts:263-276 | The direct strategy never runs "npm link" registration. The indirect strategy never creates a symlink. |
| Linker.SetUpFacts | src/devEnvInstaller.ts:279-287 | setUp first clones. A throw during cloning ends it with just the clone commands. Otherwise the commands after cloning are ordered by phase. |
| Linker.CreateSymlinksFacts | src/devEnvInstaller.ts:289-297 | createSymlinks first clones, then runs the direct strategy on the roots found. It finishes iff that plan throws nothing, and then it has performed exactly the plan's actions after the clone commands. |
| DevUtils.CommandFor | src/devUtils.ts:62-92 | Pull always runs "git pull". Build and test run the module's command iff it is set and non-empty. |
| DevUtils.ActionFor | src/devUtils.ts:61-93 | A module yields a command iff it has a non-empty location and its operation has a command. The command runs in that location. |
| DevUtils.Schedule | src/devUtils.ts:59-66 | Each module yields at most one command. |
| DevUtils.ScheduleAppend | src/devUtils.ts:59-61 | The trace of a concatenation is the trace of the later modules first: the order is reversed. |
| DevUtils.ScheduledIndices | src/devUtils.ts:59-95 | Every command is attributed to the module it came from. The attributed indices strictly decrease (reverse order). Every module that yields a command appears. |
| DevUtils.RunAll | src/devUtils.ts:45-66 | The run issues the whole schedule, whatever the exit codes. It reports exactly the commands that failed. |
| DevUtils.ScheduleCommands | src/devUtils.ts:61-93 | Each scheduled command is its module's command, run in its module's location. |
| DevUtils.PullSchedule | src/devUtils.ts:59-66 | Exactly one "git pull" per located module, in that module's folder, last module first. |
| DevUtils.BuildSchedule | src/devUtils.ts:72-80 | Each located module with a set build command runs it in its folder, last module first. |
| DevUtils.TestSchedule | src/devUtils.ts:86-94 | Each located module with a set test command runs it in its folder, last module first. |
| Versions.VersionRun | src/versionUpdater.ts:63 | A run exists iff the string has a digit. The run starts with a digit and holds only digits and dots. |
| Versions.VersionRunIsFirstMaximalRun | src/versionUpdater.ts:63 | The run is the leftmost match of the pattern: it starts at the first digit and extends over every digit and dot that follows. |
| Versions.IncVersion | src/versionUpdater.ts:62-70 | Fails iff there is no digit (the match is null). Otherwise it keeps the run up to its last '.' and increments the last component's value by one, written canonically. An empty last component gives "NaN". |
| Versions.IncVersionOfRange | src/versionUpdater.ts:62-70 | Any non-version prefix is dropped: a range ending in "<core>.<n>" gives "<core>.<n+1>". |
| Versions.IncVersionExample | src/versionUpdater.ts:62-70 | "^1.2.3" gives "1.2.4". |
| Versions.RewriteRange | src/versionUpdater.ts:50-54 | A range starting with "^" keeps the caret before the new version. Any other range becomes the bare new version. |
| Versions.UpdateVersion | src/versionUpdater.ts:39-60 | A module that is not deprecated is left unchanged. A deprecated one needs a dependency map. Its version becomes newVersion. Registered dependencies are rewritten and the others keep their ranges. |
| Versions.UpdateVersionKeepsCaret | src/versionUpdater.ts:50-54 | A rewritten dependency starts with "^" iff it did before. |
| Versions.UpdateVersionIdempotent | src/versionUpdater.ts:39-60 | Applying updateVersion to its own result changes nothing. |
| Versions.Conclude | src/versionUpdater.ts:27-34 | A module is recorded in packages. When it is deprecated or the flag passed in is set, its flags become its own deprecation flag and the bumped version, and a failing bump fails. Otherwise its flags are unchanged. |
| Versions.VisitDependencies | src/versionUpdater.ts:18-26 | After the first e iterations, those dependencies are all registered and earlier registrations are kept. Only lower-ranked, previously unregistered modules change flags. If all were registered already, nothing changes and the flag stays false. |
| Versions.VisitTraceAt | src/versionUpdater.ts:19-20 | Entry k of the visit trace holds iff iteration k visits: its dependency is still unregistered when the loop reaches it. |
| Versions.LastVisitedDecides | src/versionUpdater.ts:18-26 | The loop's flag is the deprecation flag of the last dependency it visited, as that stands at the end. It is false when it visited none. |
| Versions.GetNewVersion | src/versionUpdater.ts:7-37 | On success, the module and all its dependencies are registered, and earlier registrations are kept. A deprecated module gets its bumped version. Only lower-ranked, previously unregistered modules change elsewhere. |
| Versions.GetNewVersionBumpsOn | src/versionUpdater.ts:27-30 | The module's own flags change only when it is deprecated or the loop's final flag is set. In those cases they become its own deprecation flag and the bumped version. |
| Versions.LeafVersion | src/versionUpdater.ts:7-37 | A module without dependencies is concluded from its own deprecation alone. |
| Versions.OnlyLastVisitedDependencyCounts | src/versionUpdater.ts:19-30 | With dependencies [b, c], b deprecated and c not, the parent gets no new version. The flag is overwritten by the last visited dependency. |
| Versions.FirstCommit | src/versionUpdater.ts:134-140 | None iff no line matches "commit \w+". Otherwise the text after "commit " on the first matching line. |
| Versions.GetTagCommit | src/versionUpdater.ts:130-143 | "" unless both the path and the tag are truthy. Otherwise, a failing git command throws and a successful one gives the first commit line's hash, or "". |
| Versions.GetLastRepoCommit | src/versionUpdater.ts:145-158 | The first commit hash of "git log -1" output, or undefined when the output is empty or there is none. |
| Versions.IsDeprecated | src/versionUpdater.ts:160-169 | Throws iff the tag lookup throws or there is no last commit. Otherwise false exactly when the last repository commit equals the tag commit. |

## Left out

- Process execution (`execProcess`, `GitHelper.executeCommand`) is not modelled: commands are trace entries and their results come from oracle parameters.
- Filesystem primitives (`existsSync`, `readdirSync`/`statSync`, `realpathSync`, `mkdir`, `deleteFolderRecursive`, `createSymlink` and its Windows `mklink` branch) are not modelled: the filesystem is input data and the effects are trace entries.
- JSON parsing of the descriptor and of package.json files is not modelled: both arrive already parsed. A repository root's manifest has "does not parse" as an explicit case. The package.json files that folder matching reads do not (see the next line).
- ModuleDetector.ModuleFromFolder: a folder's package.json is taken as parsed, giving its name or none. moduleFromFolder reads the package.json before any name test (src/linkedModuleDetector.ts:56-58), and getModuleName calls `JSON.parse` without a catch (src/linkedModuleDetector.ts:70-79). So an unparsable package.json in any folder that the walk, getExistingModules, findModulePath or replaceDependenciesWithLinks (src/devEnvInstaller.ts:193) tests, matched or not, throws out of getModules, cloneRepositories or setupModules. The model has no such failure: Linker.LinkEntry, the walk and the clone loop never fail on a folder's manifest.
- Linker.IndirectRemovals: each root is planned from the filesystem as it was before the strategy ran, because `repoOf` is fixed. When a root is listed twice, the original's second pass sees the entries linked by the first as symlinks and skips them. The model repeats the folder creation, the deletions and the "npm link" commands.
- Materializer.FolderExists: the workspace lists directories only. `fs.existsSync` is also true for a plain file of the tested name.
- Materializer.Grow: a cloned folder is appended to the listing, whereas `fs.readdirSync` lists names in sorted order. Where two folders match the same module, which one counts as last may differ.
- src/cli.ts, `VersionUpdater.publish`, `runDry` and console logging are not modelled: they are argument dispatch, shell commands and output only.
- `path.resolve` of a relative root or descriptor path (src/devEnvInstaller.ts:61-63, src/linkedModuleDetector.ts:89-91) is not modelled: the model receives absolute paths. Paths are joined with '/' without normalisation.
- The `mkdir` in replaceDependenciesWithLinks is asynchronous in the original. The model treats it as completed before the folder is listed.
- Keys such as "constructor" that a plain JavaScript object inherits from its prototype are not modelled: maps hold only their own keys.
- The text of the error messages is approximated for the TypeError and SyntaxError cases.
- Versions.IncVersion: the model uses unbounded integers. The original's `parseInt` and number-to-string lose precision above 2^53, and print large values in exponent form.
- ModuleDetector.VisitsFrom: the filesystem is a finite tree, so the walk always ends. detectModulesInFolder keeps no set of visited folders, and subDirectories follows symbolic links through `statSync` (src/linkedModuleDetector.ts:81-85). On a cycle of folders through links, which both linking strategies create when two sibling repositories depend on each other, the original recurses until a filesystem error. The model cannot express such a cycle.
- Versions.GetNewVersion: requires an acyclic dependency graph (a rank that decreases along edges). The original recurses without bound on a cycle.
- Versions.IsDeprecated: `localeCompare` is taken as string equality. Locale-specific collation is not modelled.
- Versions.GetNewVersion: the package.json version it bumps comes from an oracle parameter (`readVersion`). It is not tied to the manifest that updateVersion rewrites.
- DevUtils.PullAll, DevUtils.BuildAll and DevUtils.TestAll are the compositions of `GetModules` with the schedules. Their properties are stated on `PullSchedule`, `BuildSchedule` and `TestSchedule`.

## Findings

| source | as written | input that shows it | evidently intended | confidence | as-written member | corrected member |
|---|---|---|---|---|---|---|
| src/devEnvInstaller.ts:10-13 | getModuleGitFolderName cuts the URL at the last ".git" anywhere in it. That position may lie before the last '/', which gives an empty or wrong folder name. cloneRepositories then tests the workspace root itself (AsWrittenSkipsClone). | "https://my.gitlab.com/org/repo" gives "" | the last path segment with a trailing ".git" removed: "repo" | not executed | Materializer.AsWrittenLosesName | Materializer.GitFolderName |
