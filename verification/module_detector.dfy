/** The declared-module table and the walk that finds declared modules on
    disk (linkedModuleDetector.ts). The filesystem is a finite tree, so the
    walk terminates structurally; a cycle of folders through symbolic links,
    on which the original recurses until it fails, cannot be expressed. The
    shared, mutated module objects of the original become a name-keyed map
    threaded through the walk. */
module ModuleDetector {
  import opened Wrappers
  import opened JsValues

  // ---------------------------------------------------------------------------
  // Descriptor and module records
  // ---------------------------------------------------------------------------

  /** One value of the workspace descriptor after JSON parsing. */
  datatype DescriptorEntry = DescriptorEntry(
    gitUrl: Option<string>,
    gitBranch: JsValue,
    build: Option<string>,
    test: Option<string>,
    installTypings: JsValue)

  /** The parsed descriptor: its keys in `Object.keys` order, each with its value. */
  type Descriptor = seq<(string, DescriptorEntry)>

  /** What the descriptor declares about one module. */
  datatype StaticModule = StaticModule(
    name: string,
    gitUrl: Option<string>,
    gitBranch: JsValue,
    buildCommand: Option<string>,
    testCommand: Option<string>,
    installTypings: JsValue)

  /** A declared module together with what a detection pass learned about it.
      `dependencies` holds module names: the original keeps references to
      the objects of the same name-keyed map. */
  datatype DetectedModule = DetectedModule(
    info: StaticModule,
    fsLocation: Option<string>,
    dependencies: seq<string>)

  type ModuleMap = map<string, DetectedModule>

  /** A JavaScript object keyed by module name: its keys in insertion order
      and its values. */
  datatype ModuleTable = ModuleTable(order: seq<string>, byName: ModuleMap)

  predicate NoDuplicates<T(==)>(s: seq<T>)
  {
    forall i, j | 0 <= i < j < |s| :: s[i] != s[j]
  }

  ghost predicate ValidTable(t: ModuleTable)
  {
    && NoDuplicates(t.order)
    && (forall k :: k in t.byName <==> k in t.order)
    && (forall k | k in t.byName :: t.byName[k].info.name == k)
  }

  function KeysOf(d: Descriptor): (ks: seq<string>)
    ensures |ks| == |d|
    ensures forall i | 0 <= i < |d| :: ks[i] == d[i].0
  {
    if |d| == 0 then [] else KeysOf(d[..|d| - 1]) + [d[|d| - 1].0]
  }

  /** The branch policy: a truthy `gitBranch` is kept as it is, an explicit
      boolean (which can only be `false` here) means no branch, anything
      else (absent, empty, null, 0) means "master". */
  function ResolveBranch(v: JsValue): (b: JsValue)
    ensures Truthy(v) ==> b == v
    ensures !Truthy(v) && v.Bool? ==> b == Null
    ensures !Truthy(v) && !v.Bool? ==> b == Str("master")
    ensures Truthy(b) <==> b != Null
  {
    if Truthy(v) then v
    else if v.Bool? then Null
    else Str("master")
  }

  /** The record built for descriptor key `name` with value `e`. */
  function StaticRecord(name: string, e: DescriptorEntry): (m: StaticModule)
    ensures m.name == name && m.gitUrl == e.gitUrl
    ensures m.buildCommand == e.build && m.testCommand == e.test
    ensures m.gitBranch == ResolveBranch(e.gitBranch)
    ensures Truthy(m.installTypings) == Truthy(e.installTypings)
    ensures !Truthy(e.installTypings) ==> m.installTypings == Bool(false)
  {
    StaticModule(
      name, e.gitUrl, ResolveBranch(e.gitBranch), e.build, e.test,
      if Truthy(e.installTypings) then e.installTypings else Bool(false))
  }

  function Undetected(name: string, e: DescriptorEntry): DetectedModule
  {
    DetectedModule(StaticRecord(name, e), None, [])
  }

  /** `table[name] = m` on a JavaScript object: a new key goes to the end of
      the key order, an existing key keeps its place. */
  function Store(t: ModuleTable, name: string, m: DetectedModule): (r: ModuleTable)
    requires ValidTable(t) && m.info.name == name
    ensures ValidTable(r)
    ensures r.byName == t.byName[name := m]
    ensures name in t.byName ==> r.order == t.order
    ensures name !in t.byName ==> r.order == t.order + [name]
  {
    var order := if name in t.byName then t.order else t.order + [name];
    ModuleTable(order, t.byName[name := m])
  }

  /** loadModulesStaticInfo on an already-parsed descriptor: one record per
      distinct key, nothing located yet. */
  function LoadModulesStaticInfo(d: Descriptor): (t: ModuleTable)
    ensures ValidTable(t)
    ensures forall i | 0 <= i < |t.order| :: t.order[i] in t.byName
    ensures forall k :: k in t.byName <==> k in KeysOf(d)
    decreases |d|
  {
    if |d| == 0 then ModuleTable([], map[])
    else
      var front := d[..|d| - 1];
      var last := d[|d| - 1];
      assert KeysOf(d) == KeysOf(front) + [last.0];
      Store(LoadModulesStaticInfo(front), last.0, Undetected(last.0, last.1))
  }

  /** The record stored under a key is built from the key's last value in
      the descriptor, with no location and no dependencies. */
  lemma LoadStep(d: Descriptor)
    requires |d| > 0
    ensures LoadModulesStaticInfo(d).byName ==
      LoadModulesStaticInfo(d[..|d| - 1]).byName[d[|d| - 1].0 := Undetected(d[|d| - 1].0, d[|d| - 1].1)]
  {
  }

  lemma {:induction false} LoadedValue(d: Descriptor, i: nat)
    requires i < |d| && forall j | i < j < |d| :: d[j].0 != d[i].0
    ensures LoadModulesStaticInfo(d).byName[d[i].0] == Undetected(d[i].0, d[i].1)
    decreases |d|
  {
    var n := |d| - 1;
    var front := d[..n];
    var t := LoadModulesStaticInfo(front);
    LoadStep(d);
    if i < n {
      assert front[i] == d[i];
      assert d[n].0 != d[i].0;
      forall j | i < j < n ensures front[j].0 != front[i].0 {
        assert front[j] == d[j];
      }
      LoadedValue(front, i);
    }
  }

  /** With distinct keys (as a JSON object has), the key order of the table
      is the descriptor's key order and every key has its own record. */
  lemma {:induction false} LoadedInKeyOrder(d: Descriptor)
    requires NoDuplicates(KeysOf(d))
    ensures var t := LoadModulesStaticInfo(d);
      && t.order == KeysOf(d)
      && forall i | 0 <= i < |d| :: t.byName[d[i].0] == Undetected(d[i].0, d[i].1)
    decreases |d|
  {
    var ks := KeysOf(d);
    if |d| > 0 {
      var n := |d| - 1;
      var front := d[..n];
      assert KeysOf(front) == ks[..n];
      LoadedInKeyOrder(front);
      assert d[n].0 !in KeysOf(front);
    }
    forall i | 0 <= i < |d|
      ensures LoadModulesStaticInfo(d).byName[d[i].0] == Undetected(d[i].0, d[i].1)
    {
      forall j | i < j < |d| ensures d[j].0 != d[i].0 {
        assert ks[i] != ks[j];
      }
      LoadedValue(d, i);
    }
  }

  // ---------------------------------------------------------------------------
  // Matching a folder to a declared module
  // ---------------------------------------------------------------------------

  /** moduleFromFolder: the folder's base name wins when it is a declared
      key; otherwise the name in the folder's package.json, when declared;
      otherwise nothing. Empty names never match. */
  function ModuleFromFolder(folderName: string, manifestName: Option<string>, declared: set<string>)
    : (r: Option<string>)
    ensures r.Some? ==> r.value in declared && r.value != ""
    ensures folderName != "" && folderName in declared ==> r == Some(folderName)
    ensures r.Some? && r.value != folderName ==> manifestName == r
    ensures r.None? <==>
      (folderName == "" || folderName !in declared)
      && (manifestName.None? || manifestName.value == "" || manifestName.value !in declared)
  {
    if folderName != "" && folderName in declared then Some(folderName)
    else if manifestName.Some? && manifestName.value != "" && manifestName.value in declared then manifestName
    else None
  }

  /** A folder on disk: its base name, the `name` field of its package.json
      (None when there is none), its canonical path (`fs.realpathSync`),
      its sub-directories and, when it has one, the sub-directories of its
      `node_modules` folder. */
  datatype Dir = Dir(
    name: string,
    manifestName: Option<string>,
    realPath: string,
    entries: seq<Dir>,
    hasNodeModules: bool,
    nodeModules: seq<Dir>)

  function MatchDir(d: Dir, declared: set<string>): Option<string>
  {
    ModuleFromFolder(d.name, d.manifestName, declared)
  }

  /** The folders searched below `d`: `d/node_modules` when it exists, else `d`. */
  function DependencyFolder(d: Dir): seq<Dir>
  {
    if d.hasNodeModules then d.nodeModules else d.entries
  }

  // ---------------------------------------------------------------------------
  // The walk as a state-free trace of visits
  // ---------------------------------------------------------------------------

  /** A matched folder: the module it matched, the parent module the walk
      was under (None at the top), and the folder's canonical path. */
  datatype Visit = Visit(parent: Option<string>, matched: string, realPath: string)

  ghost predicate VisitsWithin(vs: seq<Visit>, keys: set<string>)
  {
    forall j | 0 <= j < |vs| :: vs[j].matched in keys && (vs[j].parent.Some? ==> vs[j].parent.value in keys)
  }

  /** The matches found below `d`, starting at its `i`-th sub-directory, in
      the order the walk makes them (pre-order). Only matched folders are
      descended into. Matching depends on the declared names alone, so the
      trace does not depend on what earlier visits recorded. */
  function VisitsFrom(d: Dir, i: nat, parent: Option<string>, declared: set<string>): (vs: seq<Visit>)
    requires parent.Some? ==> parent.value in declared
    ensures VisitsWithin(vs, declared)
    decreases d, |DependencyFolder(d)| - i
  {
    var subs := if d.hasNodeModules then d.nodeModules else d.entries;
    if i >= |subs| then []
    else
      var sub := subs[i];
      var here := match MatchDir(sub, declared)
        case None => []
        case Some(m) => [Visit(parent, m, sub.realPath)] + VisitsFrom(sub, 0, Some(m), declared);
      here + VisitsFrom(d, i + 1, parent, declared)
  }

  /** The whole walk of getModules: the root folder is matched first (with
      no parent), then everything below it. */
  function Walk(root: Dir, declared: set<string>): (vs: seq<Visit>)
    ensures VisitsWithin(vs, declared)
  {
    match MatchDir(root, declared)
    case None => VisitsFrom(root, 0, None, declared)
    case Some(m) => [Visit(None, m, root.realPath)] + VisitsFrom(root, 0, Some(m), declared)
  }

  /** The reference definition of what the walk finds, free of order:
      some sub-directory from the `i`-th on is found at. */
  ghost predicate FoundBelow(d: Dir, i: nat, parent: Option<string>, declared: set<string>, v: Visit)
    decreases d, 1
  {
    exists j: nat | i <= j :: FoundAt(d, j, parent, declared, v)
  }

  /** Sub-directory `j` of `d` matches a declared module, and `v` is either
      that match, under `parent`, or is found below it with the matched
      module as the parent. */
  ghost predicate FoundAt(d: Dir, j: nat, parent: Option<string>, declared: set<string>, v: Visit)
    decreases d, 0
  {
    var subs := if d.hasNodeModules then d.nodeModules else d.entries;
    && j < |subs|
    && MatchDir(subs[j], declared).Some?
    && var m := MatchDir(subs[j], declared).value;
       (v == Visit(parent, m, subs[j].realPath) || FoundBelow(subs[j], 0, Some(m), declared, v))
  }

  lemma FoundBelowStep(d: Dir, i: nat, parent: Option<string>, declared: set<string>, v: Visit)
    ensures FoundBelow(d, i, parent, declared, v) <==>
      FoundAt(d, i, parent, declared, v) || FoundBelow(d, i + 1, parent, declared, v)
    ensures i >= |DependencyFolder(d)| ==> !FoundBelow(d, i, parent, declared, v)
  {
    if FoundBelow(d, i, parent, declared, v) {
      assert FoundBelow(d, i, parent, declared, v) == exists j: nat | i <= j :: FoundAt(d, j, parent, declared, v);
      var j: nat :| i <= j && FoundAt(d, j, parent, declared, v);
      if j > i {
        assert FoundBelow(d, i + 1, parent, declared, v);
      }
    }
  }

  /** A visit is in the trace exactly when it is found: a matched folder
      reached from `d` through matched folders only, with the module of the
      nearest matched ancestor as its parent. */
  lemma {:induction false} VisitsFromFound(d: Dir, i: nat, parent: Option<string>, declared: set<string>, v: Visit)
    requires parent.Some? ==> parent.value in declared
    ensures v in VisitsFrom(d, i, parent, declared) <==> FoundBelow(d, i, parent, declared, v)
    decreases d, |DependencyFolder(d)| - i
  {
    var subs := if d.hasNodeModules then d.nodeModules else d.entries;
    FoundBelowStep(d, i, parent, declared, v);
    if i < |subs| {
      var sub := subs[i];
      var rest := VisitsFrom(d, i + 1, parent, declared);
      VisitsFromFound(d, i + 1, parent, declared, v);
      match MatchDir(sub, declared)
      case None =>
        assert VisitsFrom(d, i, parent, declared) == rest;
      case Some(m) =>
        var below := VisitsFrom(sub, 0, Some(m), declared);
        VisitsFromFound(sub, 0, Some(m), declared, v);
        assert VisitsFrom(d, i, parent, declared) == [Visit(parent, m, sub.realPath)] + below + rest;
    }
  }

  /** The whole walk finds the root when it matches, and otherwise what
      lies below the root under the root's match. */
  lemma WalkFound(root: Dir, declared: set<string>, v: Visit)
    ensures v in Walk(root, declared) <==>
      || (MatchDir(root, declared).Some? && v == Visit(None, MatchDir(root, declared).value, root.realPath))
      || FoundBelow(root, 0, MatchDir(root, declared), declared, v)
  {
    VisitsFromFound(root, 0, MatchDir(root, declared), declared, v);
  }

  // ---------------------------------------------------------------------------
  // Recording visits in the module map
  // ---------------------------------------------------------------------------

  /** Appends `m` unless an entry with that name is already there. */
  function AddDependency(deps: seq<string>, m: string): (r: seq<string>)
    ensures m in r
    ensures forall x :: x in r <==> x in deps || x == m
    ensures NoDuplicates(deps) ==> NoDuplicates(r)
    ensures |deps| <= |r| && r[..|deps|] == deps
  {
    if m in deps then deps else deps + [m]
  }

  /** What one match does to the map: the matched module's fsLocation is
      overwritten with the canonical path, and the module is added to the
      parent's dependencies unless already listed. */
  function ApplyVisit(st: ModuleMap, v: Visit): (r: ModuleMap)
    requires v.matched in st && (v.parent.Some? ==> v.parent.value in st)
    ensures r.Keys == st.Keys
  {
    var located := st[v.matched := st[v.matched].(fsLocation := Some(v.realPath))];
    match v.parent
    case None => located
    case Some(p) => located[p := located[p].(dependencies := AddDependency(located[p].dependencies, v.matched))]
  }

  /** A visit touches exactly the matched module's location and the parent's
      dependency list; declared data and everything else stay as they were. */
  lemma ApplyVisitFacts(st: ModuleMap, v: Visit, k: string)
    requires v.matched in st && (v.parent.Some? ==> v.parent.value in st) && k in st
    ensures var r := ApplyVisit(st, v);
      && r[k].info == st[k].info
      && r[k].fsLocation == (if k == v.matched then Some(v.realPath) else st[k].fsLocation)
      && r[k].dependencies ==
           (if v.parent == Some(k) then AddDependency(st[k].dependencies, v.matched) else st[k].dependencies)
  {
  }

  function ApplyAll(st: ModuleMap, vs: seq<Visit>): (r: ModuleMap)
    requires VisitsWithin(vs, st.Keys)
    ensures r.Keys == st.Keys
    decreases |vs|
  {
    if |vs| == 0 then st else ApplyAll(ApplyVisit(st, vs[0]), vs[1..])
  }

  lemma {:induction false} ApplyAllAppend(st: ModuleMap, a: seq<Visit>, b: seq<Visit>)
    requires VisitsWithin(a, st.Keys) && VisitsWithin(b, st.Keys)
    ensures VisitsWithin(a + b, st.Keys)
    ensures ApplyAll(st, a + b) == ApplyAll(ApplyAll(st, a), b)
    decreases |a|
  {
    if |a| == 0 {
      assert a + b == b;
    } else {
      assert (a + b)[1..] == a[1..] + b;
      ApplyAllAppend(ApplyVisit(st, a[0]), a[1..], b);
    }
  }

  lemma ApplyAllLast(st: ModuleMap, vs: seq<Visit>)
    requires |vs| > 0 && VisitsWithin(vs, st.Keys)
    ensures VisitsWithin(vs[..|vs| - 1], st.Keys)
    ensures ApplyAll(st, vs) == ApplyVisit(ApplyAll(st, vs[..|vs| - 1]), vs[|vs| - 1])
  {
    var n := |vs| - 1;
    assert vs == vs[..n] + [vs[n]];
    ApplyAllAppend(st, vs[..n], [vs[n]]);
    var mid := ApplyAll(st, vs[..n]);
    assert [vs[n]][1..] == [];
    assert ApplyAll(mid, [vs[n]]) == ApplyAll(ApplyVisit(mid, vs[n]), []);
  }

  // ---------------------------------------------------------------------------
  // The detection pass as the original performs it
  // ---------------------------------------------------------------------------

  /** detectModulesInFolder, from the `i`-th sub-directory on: each
      sub-directory that matches a declared module is recorded and then
      searched itself, with the matched module as the new parent. */
  function DetectModulesInFolder(d: Dir, i: nat, st: ModuleMap, parent: Option<string>): (r: ModuleMap)
    requires parent.Some? ==> parent.value in st
    ensures r.Keys == st.Keys
    decreases d, |DependencyFolder(d)| - i
  {
    var subs := if d.hasNodeModules then d.nodeModules else d.entries;
    if i >= |subs| then st
    else
      var sub := subs[i];
      var next := match MatchDir(sub, st.Keys)
        case None => st
        case Some(m) => DetectModulesInFolder(sub, 0, ApplyVisit(st, Visit(parent, m, sub.realPath)), Some(m));
      DetectModulesInFolder(d, i + 1, next, parent)
  }

  lemma ReplayMatched(st: ModuleMap, v: Visit, below: seq<Visit>, rest: seq<Visit>)
    requires v.matched in st && (v.parent.Some? ==> v.parent.value in st)
    requires VisitsWithin(below, st.Keys) && VisitsWithin(rest, st.Keys)
    ensures VisitsWithin([v] + below + rest, st.Keys)
    ensures ApplyAll(st, [v] + below + rest) == ApplyAll(ApplyAll(ApplyVisit(st, v), below), rest)
  {
    ApplyAllAppend(st, [v], below);
    ApplyAllAppend(st, [v] + below, rest);
    assert [v][1..] == [];
    assert ApplyAll(st, [v]) == ApplyAll(ApplyVisit(st, v), []);
  }

  /** The mutating walk is the replay of the state-free visit trace. */
  lemma {:induction false} DetectIsReplay(d: Dir, i: nat, st: ModuleMap, parent: Option<string>)
    requires parent.Some? ==> parent.value in st
    ensures DetectModulesInFolder(d, i, st, parent) == ApplyAll(st, VisitsFrom(d, i, parent, st.Keys))
    decreases d, |DependencyFolder(d)| - i
  {
    var subs := if d.hasNodeModules then d.nodeModules else d.entries;
    if i < |subs| {
      var sub := subs[i];
      var keys := st.Keys;
      var rest := VisitsFrom(d, i + 1, parent, keys);
      match MatchDir(sub, keys)
      case None =>
        assert VisitsFrom(d, i, parent, keys) == rest;
        assert DetectModulesInFolder(d, i, st, parent) == DetectModulesInFolder(d, i + 1, st, parent);
        DetectIsReplay(d, i + 1, st, parent);
      case Some(m) =>
        DetectIsReplayMatched(d, i, st, parent, sub, m);
    }
  }

  lemma {:induction false} DetectIsReplayMatched(d: Dir, i: nat, st: ModuleMap, parent: Option<string>, sub: Dir, m: string)
    requires parent.Some? ==> parent.value in st
    requires i < |DependencyFolder(d)| && sub == DependencyFolder(d)[i]
    requires MatchDir(sub, st.Keys) == Some(m)
    ensures DetectModulesInFolder(d, i, st, parent) == ApplyAll(st, VisitsFrom(d, i, parent, st.Keys))
    decreases d, |DependencyFolder(d)| - i, 0
  {
    var keys := st.Keys;
    var rest := VisitsFrom(d, i + 1, parent, keys);
    var v := Visit(parent, m, sub.realPath);
    var below := VisitsFrom(sub, 0, Some(m), keys);
    var st1 := ApplyVisit(st, v);
    var next := DetectModulesInFolder(sub, 0, st1, Some(m));
    assert DetectModulesInFolder(d, i, st, parent) == DetectModulesInFolder(d, i + 1, next, parent);
    assert VisitsFrom(d, i, parent, keys) == [v] + below + rest;
    DetectIsReplay(sub, 0, st1, Some(m));
    DetectIsReplay(d, i + 1, next, parent);
    ReplayMatched(st, v, below, rest);
  }

  // ---------------------------------------------------------------------------
  // Reference definitions of what the replay records
  // ---------------------------------------------------------------------------

  /** The canonical path of the last visit of `k`, or `init` when `k` is
      never visited. */
  function LastLocation(vs: seq<Visit>, k: string, init: Option<string>): (loc: Option<string>)
    ensures loc == init || exists j | 0 <= j < |vs| :: vs[j].matched == k && loc == Some(vs[j].realPath)
    ensures (forall j | 0 <= j < |vs| :: vs[j].matched != k) ==> loc == init
    decreases |vs|
  {
    if |vs| == 0 then init
    else if vs[|vs| - 1].matched == k then Some(vs[|vs| - 1].realPath)
    else LastLocation(vs[..|vs| - 1], k, init)
  }

  /** The modules visited directly under parent `p`, in visiting order. */
  function ChildrenOf(vs: seq<Visit>, p: string): (cs: seq<string>)
    ensures forall x :: x in cs <==> exists j | 0 <= j < |vs| :: vs[j].parent == Some(p) && vs[j].matched == x
    decreases |vs|
  {
    if |vs| == 0 then []
    else
      var front := ChildrenOf(vs[..|vs| - 1], p);
      var v := vs[|vs| - 1];
      assert forall j | 0 <= j < |vs| - 1 :: vs[..|vs| - 1][j] == vs[j];
      if v.parent == Some(p) then front + [v.matched] else front
  }

  /** `deps` extended by each of `xs` in turn, skipping names already present. */
  function AddAll(deps: seq<string>, xs: seq<string>): (r: seq<string>)
    ensures forall x :: x in r <==> x in deps || x in xs
    ensures NoDuplicates(deps) ==> NoDuplicates(r)
    ensures |deps| <= |r| && r[..|deps|] == deps
    decreases |xs|
  {
    if |xs| == 0 then deps
    else
      var front := AddAll(deps, xs[..|xs| - 1]);
      assert forall x :: x in xs <==> x in xs[..|xs| - 1] || x == xs[|xs| - 1] by {
        assert xs == xs[..|xs| - 1] + [xs[|xs| - 1]];
      }
      AddDependency(front, xs[|xs| - 1])
  }

  /** Replaying visits never changes what the descriptor declared. */
  lemma {:induction false} ReplayKeepsInfo(st: ModuleMap, vs: seq<Visit>, k: string)
    requires VisitsWithin(vs, st.Keys) && k in st
    ensures ApplyAll(st, vs)[k].info == st[k].info
    decreases |vs|
  {
    if |vs| > 0 {
      ApplyAllLast(st, vs);
      ReplayKeepsInfo(st, vs[..|vs| - 1], k);
    }
  }

  /** Replaying visits sets each fsLocation to the canonical path of the
      module's LAST visit: the original overwrites it on every match. */
  lemma {:induction false} ReplayLocation(st: ModuleMap, vs: seq<Visit>, k: string)
    requires VisitsWithin(vs, st.Keys) && k in st
    ensures ApplyAll(st, vs)[k].fsLocation == LastLocation(vs, k, st[k].fsLocation)
    decreases |vs|
  {
    if |vs| > 0 {
      ApplyAllLast(st, vs);
      ReplayLocation(st, vs[..|vs| - 1], k);
    }
  }

  /** Replaying visits extends each dependency list by the modules visited
      directly under it, skipping names already listed. */
  lemma {:induction false} ReplayDependencies(st: ModuleMap, vs: seq<Visit>, k: string)
    requires VisitsWithin(vs, st.Keys) && k in st
    ensures ApplyAll(st, vs)[k].dependencies == AddAll(st[k].dependencies, ChildrenOf(vs, k))
    decreases |vs|
  {
    if |vs| > 0 {
      var n := |vs| - 1;
      var mid := ApplyAll(st, vs[..n]);
      ApplyAllLast(st, vs);
      ReplayDependencies(st, vs[..n], k);
      var cs := ChildrenOf(vs[..n], k);
      var deps := st[k].dependencies;
      assert mid[k].dependencies == AddAll(deps, cs);
      if vs[n].parent == Some(k) {
        var all := cs + [vs[n].matched];
        assert ChildrenOf(vs, k) == all;
        assert all[..|all| - 1] == cs;
        assert AddAll(deps, all) == AddDependency(AddAll(deps, cs), vs[n].matched);
      } else {
        assert ChildrenOf(vs, k) == cs;
        assert ApplyVisit(mid, vs[n])[k].dependencies == mid[k].dependencies;
      }
    }
  }

  // ---------------------------------------------------------------------------
  // getModules
  // ---------------------------------------------------------------------------

  function Collect(order: seq<string>, m: ModuleMap): (r: seq<DetectedModule>)
    requires forall k | k in order :: k in m
    ensures |r| == |order|
    ensures forall i | 0 <= i < |order| :: r[i] == m[order[i]]
  {
    if |order| == 0 then [] else Collect(order[..|order| - 1], m) + [m[order[|order| - 1]]]
  }

  /** The map after a detection pass from `root`: the root module (if the
      root matches) is located first, then the folders below are walked. */
  function DetectFromRoot(root: Dir, table: ModuleTable): (r: ModuleMap)
    ensures r.Keys == table.byName.Keys
  {
    var st := table.byName;
    match MatchDir(root, st.Keys)
    case None => DetectModulesInFolder(root, 0, st, None)
    case Some(m) => DetectModulesInFolder(root, 0, ApplyVisit(st, Visit(None, m, root.realPath)), Some(m))
  }

  lemma DetectFromRootIsReplay(root: Dir, table: ModuleTable)
    ensures DetectFromRoot(root, table) == ApplyAll(table.byName, Walk(root, table.byName.Keys))
  {
    var st := table.byName;
    var keys := st.Keys;
    match MatchDir(root, keys)
    case None =>
      DetectIsReplay(root, 0, st, None);
    case Some(m) =>
      var v := Visit(None, m, root.realPath);
      DetectIsReplay(root, 0, ApplyVisit(st, v), Some(m));
      ApplyAllAppend(st, [v], VisitsFrom(root, 0, Some(m), keys));
      assert [v][1..] == [];
  }

  /** getModules: every declared module exactly once, in descriptor key
      order, whether or not it was found on disk. */
  function GetModules(root: Dir, d: Descriptor): (r: seq<DetectedModule>)
    ensures var t := LoadModulesStaticInfo(d);
      && |r| == |t.order|
      && (forall i | 0 <= i < |r| :: r[i].info == t.byName[t.order[i]].info && r[i].info.name == t.order[i])
  {
    var t := LoadModulesStaticInfo(d);
    var detected := DetectFromRoot(root, t);
    var r := Collect(t.order, detected);
    assert forall i | 0 <= i < |r| :: r[i].info == t.byName[t.order[i]].info by {
      DetectFromRootIsReplay(root, t);
      forall i | 0 <= i < |r| ensures r[i].info == t.byName[t.order[i]].info {
        ReplayKeepsInfo(t.byName, Walk(root, t.byName.Keys), t.order[i]);
      }
    }
    r
  }

  /** What getModules reports for each module: the canonical path of the
      last folder that matched it (None when none did), and as dependencies
      the modules matched directly below any of its folders, each once, in
      the order first met. */
  lemma GetModulesFacts(root: Dir, d: Descriptor, i: nat)
    requires i < |GetModules(root, d)|
    ensures var t := LoadModulesStaticInfo(d);
      var walk := Walk(root, t.byName.Keys);
      var m := GetModules(root, d)[i];
      && m.fsLocation == LastLocation(walk, m.info.name, None)
      && m.dependencies == AddAll([], ChildrenOf(walk, m.info.name))
      && NoDuplicates(m.dependencies)
      && (forall x :: x in m.dependencies <==>
            exists j | 0 <= j < |walk| :: walk[j].parent == Some(m.info.name) && walk[j].matched == x)
  {
    var t := LoadModulesStaticInfo(d);
    var k := t.order[i];
    DetectFromRootIsReplay(root, t);
    LoadedFresh(d, k);
    ReplayKeepsInfo(t.byName, Walk(root, t.byName.Keys), k);
    ReplayLocation(t.byName, Walk(root, t.byName.Keys), k);
    ReplayDependencies(t.byName, Walk(root, t.byName.Keys), k);
  }

  lemma LoadedFresh(d: Descriptor, k: string)
    requires k in LoadModulesStaticInfo(d).byName
    ensures var m := LoadModulesStaticInfo(d).byName[k];
      m.fsLocation == None && m.dependencies == []
    decreases |d|
  {
    if |d| > 0 {
      var front := d[..|d| - 1];
      if k != d[|d| - 1].0 {
        LoadedFresh(front, k);
      }
    }
  }
}
