/** The version helper of versionUpdater.ts: bumping a version string,
    rewriting a package.json after a bump, deciding which modules need a
    new version, and the scans of git output it relies on. Git is an
    oracle from command line to output (None when the command failed). */
module Versions {
  import opened Wrappers
  import opened Strings

  // ---------------------------------------------------------------------------
  // incVersion
  // ---------------------------------------------------------------------------

  predicate IsVersionChar(c: char)
  {
    IsDigit(c) || c == '.'
  }

  /** The first index at or after `i` holding a digit, or |s|. */
  function FirstDigitFrom(s: string, i: nat): (r: nat)
    requires i <= |s|
    ensures i <= r <= |s|
    ensures r < |s| ==> IsDigit(s[r])
    ensures forall k | i <= k < r :: !IsDigit(s[k])
    decreases |s| - i
  {
    if i == |s| || IsDigit(s[i]) then i else FirstDigitFrom(s, i + 1)
  }

  /** The end of the run of digits and dots that starts at `i`. */
  function RunEnd(s: string, i: nat): (r: nat)
    requires i <= |s|
    ensures i <= r <= |s|
    ensures forall k | i <= k < r :: IsVersionChar(s[k])
    ensures r < |s| ==> !IsVersionChar(s[r])
    decreases |s| - i
  {
    if i == |s| || !IsVersionChar(s[i]) then i else RunEnd(s, i + 1)
  }

  /** The first match of the pattern /(\d+\.*)+/: it starts at the first
      digit and, being greedy, takes every digit and dot that follows. */
  function VersionRun(raw: string): (r: Option<string>)
    ensures r.None? <==> forall k | 0 <= k < |raw| :: !IsDigit(raw[k])
    ensures r.Some? ==> |r.value| >= 1 && IsDigit(r.value[0])
    ensures r.Some? ==> forall k | 0 <= k < |r.value| :: IsVersionChar(r.value[k])
  {
    var start := FirstDigitFrom(raw, 0);
    if start == |raw| then None
    else Some(raw[start..RunEnd(raw, start)])
  }

  /** The run VersionRun finds is a slice of `raw` that begins at the first
      digit and cannot be extended to the right. */
  lemma VersionRunIsFirstMaximalRun(raw: string)
    requires VersionRun(raw).Some?
    ensures exists s, e | 0 <= s < e <= |raw| && VersionRun(raw).value == raw[s..e] ::
      && (forall k | 0 <= k < s :: !IsDigit(raw[k]))
      && (e == |raw| || !IsVersionChar(raw[e]))
  {
    var s := FirstDigitFrom(raw, 0);
    var e := RunEnd(raw, s);
    assert VersionRun(raw).value == raw[s..e];
  }

  /** The text after the last '.' (all of `v` when it has none). */
  function LastComponent(v: string): string
  {
    v[LastIndexOfChar(v, '.') + 1..]
  }

  /** Everything up to and including the last '.' ("" when there is none). */
  function BeforeLastComponent(v: string): string
  {
    v[..LastIndexOfChar(v, '.') + 1]
  }

  /** incVersion: the first run of digits and dots with its last component
      incremented. A string without a digit makes the original throw (the
      regular expression finds no match); a run ending in '.' makes
      `parseInt` return NaN, which prints as "NaN". */
  function IncVersion(raw: string): (r: Result<string>)
    ensures r.Err? <==> forall k | 0 <= k < |raw| :: !IsDigit(raw[k])
    ensures r.Ok? ==> var v := VersionRun(raw).value;
      && IsPrefix(BeforeLastComponent(v), r.value)
      && BeforeLastComponent(r.value) == BeforeLastComponent(v)
      && (LastComponent(v) == "" ==> LastComponent(r.value) == "NaN")
      && (LastComponent(v) != "" ==>
            AllDigits(LastComponent(v)) && Canonical(LastComponent(r.value))
            && DigitsValue(LastComponent(r.value)) == DigitsValue(LastComponent(v)) + 1)
  {
    match VersionRun(raw)
    case None => Err("TypeError: version pattern has no match")
    case Some(v) =>
      var head := BeforeLastComponent(v);
      var tail := LastComponent(v);
      assert AllDigits(tail) by {
        assert forall k | 0 <= k < |tail| :: tail[k] == v[LastIndexOfChar(v, '.') + 1 + k];
      }
      var bumped := if tail == "" then "NaN" else NatToString(DigitsValue(tail) + 1);
      var r := head + bumped;
      ComponentsOfJoin(head, bumped);
      Ok(r)
  }

  /** Appending a dot-free text after a prefix that is empty or ends in
      '.' makes that text the last component. */
  lemma ComponentsOfJoin(head: string, tail: string)
    requires head == "" || head[|head| - 1] == '.'
    requires '.' !in tail
    ensures LastComponent(head + tail) == tail
    ensures BeforeLastComponent(head + tail) == head
  {
    var s := head + tail;
    var k := LastIndexOfChar(s, '.');
    assert forall j | |head| <= j < |s| :: s[j] == tail[j - |head|];
    if head != "" {
      assert s[|head| - 1] == '.';
      assert k == |head| - 1;
    } else {
      assert k == -1;
    }
  }

  /** The usual case: behind a prefix without digits, a version whose last
      component is a canonical numeral gets that numeral incremented, and
      the prefix (a range's '^' or '~') is dropped. */
  lemma IncVersionOfRange(prefix: string, core: string, n: nat)
    requires forall k | 0 <= k < |prefix| :: !IsVersionChar(prefix[k])
    requires |core| >= 1 && IsDigit(core[0]) && forall k | 0 <= k < |core| :: IsVersionChar(core[k])
    ensures IncVersion(prefix + core + "." + NatToString(n)) == Ok(core + "." + NatToString(n + 1))
  {
    var raw := prefix + core + "." + NatToString(n);
    var v := core + "." + NatToString(n);
    assert raw == prefix + v;
    assert forall k | 0 <= k < |v| :: raw[|prefix| + k] == v[k];
    var start := FirstDigitFrom(raw, 0);
    assert start == |prefix| by {
      assert IsDigit(raw[|prefix|]);
    }
    var end := RunEnd(raw, start);
    assert end == |raw| by {
      assert forall k | start <= k < |raw| :: IsVersionChar(raw[k]);
    }
    assert raw[start..end] == v;
    assert VersionRun(raw) == Some(v);
    ComponentsOfJoin(core + ".", NatToString(n));
    ComponentsOfJoin(core + ".", NatToString(n + 1));
    CanonicalRoundTrip(NatToString(n));
  }

  /** "^1.2.3" becomes "1.2.4". */
  lemma IncVersionExample(raw: string)
    requires raw == "^1.2.3"
    ensures IncVersion(raw) == Ok("1.2.4")
  {
    var prefix, core := "^", "1.2";
    var three, four := NatToString(3), NatToString(4);
    assert three == "3" && four == "4" by {
      assert DigitChar(3) == '3' && DigitChar(4) == '4';
    }
    assert prefix + core + "." + three == "^1.2.3";
    assert core + "." + four == "1.2.4";
    assert !IsVersionChar(prefix[0]);
    assert IsVersionChar(core[0]) && IsVersionChar(core[1]) && IsVersionChar(core[2]);
    IncVersionOfRange(prefix, core, 3);
  }

  // ---------------------------------------------------------------------------
  // updateVersion
  // ---------------------------------------------------------------------------

  /** What the helper records on a module object: `isDepricated` (absent
      reads as false) and `newVersion` (None while unset). */
  datatype Flags = Flags(isDeprecated: bool, newVersion: Option<string>)

  /** The parts of a package.json the helper reads and writes; None for a
      missing field. */
  datatype PackageJson = PackageJson(version: Option<string>, dependencies: Option<map<string, string>>)

  /** A new version as string concatenation prints it. */
  function ShowVersion(v: Option<string>): string
  {
    match v
    case Some(s) => s
    case None => "undefined"
  }

  /** The rewritten range: a leading '^' is kept, anything else dropped. */
  function RewriteRange(range: string, newVersion: Option<string>): (r: string)
    ensures IsPrefix("^", range) ==> r == "^" + ShowVersion(newVersion)
    ensures !IsPrefix("^", range) ==> r == ShowVersion(newVersion)
  {
    (if IsPrefix("^", range) then "^" else "") + ShowVersion(newVersion)
  }

  /** updateVersion: nothing happens unless the module is deprecated; then
      the version becomes the module's new version and every dependency
      that is a registered package gets that package's new version, keeping
      a caret. A manifest without `dependencies` makes the original throw. */
  function UpdateVersion(owner: Flags, manifest: PackageJson, packages: map<string, Flags>): (r: Result<PackageJson>)
    ensures !owner.isDeprecated ==> r == Ok(manifest)
    ensures owner.isDeprecated ==> (r.Ok? <==> manifest.dependencies.Some?)
    ensures owner.isDeprecated && r.Ok? ==>
      var deps0 := manifest.dependencies.value;
      && r.value.version == owner.newVersion
      && r.value.dependencies.Some?
      && r.value.dependencies.value.Keys == deps0.Keys
      && (forall k | k in deps0 && k !in packages :: r.value.dependencies.value[k] == deps0[k])
      && (forall k | k in deps0 && k in packages ::
            r.value.dependencies.value[k] == RewriteRange(deps0[k], packages[k].newVersion))
  {
    if !owner.isDeprecated then Ok(manifest)
    else if manifest.dependencies.None? then Err("TypeError: dependencies is undefined")
    else
      var deps0 := manifest.dependencies.value;
      var deps := map k | k in deps0 :: if k in packages then RewriteRange(deps0[k], packages[k].newVersion) else deps0[k];
      Ok(PackageJson(owner.newVersion, Some(deps)))
  }

  /** A caret survives the rewrite and none is introduced, provided no new
      version itself starts with '^' (incVersion never yields one). */
  lemma UpdateVersionKeepsCaret(owner: Flags, manifest: PackageJson, packages: map<string, Flags>, k: string)
    requires owner.isDeprecated && manifest.dependencies.Some? && k in manifest.dependencies.value
    requires forall p | p in packages :: !IsPrefix("^", ShowVersion(packages[p].newVersion))
    ensures var r := UpdateVersion(owner, manifest, packages).value.dependencies.value;
      IsPrefix("^", r[k]) <==> IsPrefix("^", manifest.dependencies.value[k])
  {
    var range := manifest.dependencies.value[k];
    if k in packages {
      var nv := ShowVersion(packages[k].newVersion);
      if !IsPrefix("^", range) {
        assert RewriteRange(range, packages[k].newVersion) == nv;
      }
    }
  }

  /** Rewriting twice gives the same manifest as rewriting once. */
  lemma UpdateVersionIdempotent(owner: Flags, manifest: PackageJson, packages: map<string, Flags>)
    requires forall p | p in packages :: !IsPrefix("^", ShowVersion(packages[p].newVersion))
    requires UpdateVersion(owner, manifest, packages).Ok?
    ensures var once := UpdateVersion(owner, manifest, packages).value;
      UpdateVersion(owner, once, packages) == Ok(once)
  {
    if owner.isDeprecated {
      var once := UpdateVersion(owner, manifest, packages).value;
      var twice := UpdateVersion(owner, once, packages).value;
      var d1 := once.dependencies.value;
      forall k | k in d1 && k in packages
        ensures RewriteRange(d1[k], packages[k].newVersion) == d1[k]
      {
        UpdateVersionKeepsCaret(owner, manifest, packages, k);
      }
      assert twice.dependencies.value == d1;
    }
  }

  // ---------------------------------------------------------------------------
  // getNewVersion
  // ---------------------------------------------------------------------------

  /** What getNewVersion reads of a detected module: its folder and the
      names of its dependencies. */
  datatype VersionNode = VersionNode(fsLocation: Option<string>, dependencies: seq<string>)

  type VersionGraph = map<string, VersionNode>

  /** The shared `data` object: the flags on every module object (one
      object per name) and the names registered in `data.packages`, whose
      values are those same objects. */
  datatype VersionState = VersionState(flags: map<string, Flags>, packages: set<string>)

  function FlagsOf(flags: map<string, Flags>, n: string): Flags
  {
    if n in flags then flags[n] else Flags(false, None)
  }

  /** Every dependency is a module of the graph with a smaller rank. The
      original recurses forever on a dependency cycle, since a module is
      registered only after its dependencies have been visited. */
  ghost predicate Ranked(g: VersionGraph, rank: map<string, nat>)
  {
    forall n | n in g :: n in rank && forall d | d in g[n].dependencies :: d in g && d in rank && rank[d] < rank[n]
  }

  /** The incremented version of the package.json in `fsLocation`. */
  function BumpOf(fsLocation: Option<string>, readVersion: string -> Result<Option<string>>): Result<string>
  {
    var version :- readVersion(ShowPath(fsLocation));
    match version
    case None => Err("TypeError: version is undefined")
    case Some(raw) => IncVersion(raw)
  }

  /** getNewVersion on module `name`: ask whether the module is deprecated
      (`deprecated` stands for GitHelper.isDeprecated, see IsDeprecated
      below), read its package.json (`readVersion` gives the manifest's
      version field, Err when it cannot be read), visit every dependency
      not yet registered, then bump the module when it or the last visited
      dependency is deprecated, and register it. */
  function GetNewVersion(g: VersionGraph, rank: map<string, nat>, name: string, st: VersionState,
                         deprecated: Option<string> -> Result<bool>,
                         readVersion: string -> Result<Option<string>>): (r: Result<VersionState>)
    requires Ranked(g, rank) && name in g
    ensures r.Ok? ==> st.packages <= r.value.packages && name in r.value.packages
    ensures r.Ok? ==> forall d | d in g[name].dependencies :: d in r.value.packages
    ensures r.Ok? ==> forall n | n != name && FlagsOf(r.value.flags, n) != FlagsOf(st.flags, n) ::
      n in rank && rank[n] < rank[name] && n !in st.packages
    ensures r.Ok? ==> deprecated(g[name].fsLocation).Ok? && readVersion(ShowPath(g[name].fsLocation)).Ok?
    ensures r.Ok? && deprecated(g[name].fsLocation) == Ok(true) ==>
      BumpOf(g[name].fsLocation, readVersion).Ok? &&
      FlagsOf(r.value.flags, name) == Flags(true, Some(BumpOf(g[name].fsLocation, readVersion).value))
    ensures r.Ok? ==> (
      || FlagsOf(r.value.flags, name) == FlagsOf(st.flags, name)
      || (BumpOf(g[name].fsLocation, readVersion).Ok? &&
          FlagsOf(r.value.flags, name) == Flags(deprecated(g[name].fsLocation).value, Some(BumpOf(g[name].fsLocation, readVersion).value))))
    decreases rank[name], 1
  {
    var node := g[name];
    var own :- deprecated(node.fsLocation);
    var _ :- readVersion(ShowPath(node.fsLocation));
    var visited :- VisitDependencies(g, rank, name, |node.dependencies|, st, deprecated, readVersion);
    Conclude(name, own, visited.0, visited.1, BumpOf(node.fsLocation, readVersion))
  }

  /** The module's own flags change exactly when it is deprecated or the
      last dependency its loop visited is: then they record its own
      deprecation and the bumped version. */
  lemma GetNewVersionBumpsOn(g: VersionGraph, rank: map<string, nat>, name: string, st: VersionState,
                             deprecated: Option<string> -> Result<bool>,
                             readVersion: string -> Result<Option<string>>)
    requires Ranked(g, rank) && name in g
    requires GetNewVersion(g, rank, name, st, deprecated, readVersion).Ok?
    ensures VisitDependencies(g, rank, name, |g[name].dependencies|, st, deprecated, readVersion).Ok?
    ensures var r := GetNewVersion(g, rank, name, st, deprecated, readVersion).value;
      var last := VisitDependencies(g, rank, name, |g[name].dependencies|, st, deprecated, readVersion).value.1;
      && (FlagsOf(r.flags, name) != FlagsOf(st.flags, name) ==> deprecated(g[name].fsLocation).value || last)
      && (deprecated(g[name].fsLocation).value || last ==>
            BumpOf(g[name].fsLocation, readVersion).Ok? &&
            FlagsOf(r.flags, name) == Flags(deprecated(g[name].fsLocation).value, Some(BumpOf(g[name].fsLocation, readVersion).value)))
  {
  }

  /** The end of getNewVersion: bump the module when it or the last visited
      dependency is deprecated, then register it. */
  function Conclude(name: string, own: bool, st: VersionState, hasUpdated: bool, bump: Result<string>): (r: Result<VersionState>)
    ensures r.Ok? <==> !(hasUpdated || own) || bump.Ok?
    ensures r.Ok? ==> r.value.packages == st.packages + {name}
    ensures r.Ok? && (hasUpdated || own) ==> r.value.flags == st.flags[name := Flags(own, Some(bump.value))]
    ensures r.Ok? && !(hasUpdated || own) ==> r.value.flags == st.flags
  {
    if hasUpdated || own then
      var newVersion :- bump;
      Ok(VersionState(st.flags[name := Flags(own, Some(newVersion))], st.packages + {name}))
    else Ok(st.(packages := st.packages + {name}))
  }

  /** The loop over the dependencies of `name`: the state and the value of
      `hasUpdatedDependencies` after its first `e` iterations, starting
      from `st` and `false`. An iteration visits its dependency only when
      that is not registered yet, and a visit overwrites the flag with the
      dependency's deprecation flag. */
  function VisitDependencies(g: VersionGraph, rank: map<string, nat>, name: string, e: nat, st: VersionState,
                             deprecated: Option<string> -> Result<bool>,
                             readVersion: string -> Result<Option<string>>): (r: Result<(VersionState, bool)>)
    requires Ranked(g, rank) && name in g && e <= |g[name].dependencies|
    ensures r.Ok? ==> st.packages <= r.value.0.packages
    ensures r.Ok? ==> AllRegistered(g[name].dependencies, e, r.value.0)
    ensures r.Ok? ==> Framed(rank, name, st, r.value.0)
    ensures AllRegistered(g[name].dependencies, e, st) ==> r == Ok((st, false))
    decreases rank[name], 0, e
  {
    var deps := g[name].dependencies;
    if e == 0 then Ok((st, false))
    else
      var before :- VisitDependencies(g, rank, name, e - 1, st, deprecated, readVersion);
      var dep := deps[e - 1];
      assert dep in g[name].dependencies;
      RegisteredPrefix(deps, e, st);
      if dep in before.0.packages then
        RegisteredGrows(deps, e, before.0, before.0);
        Ok(before)
      else
        var st1 :- GetNewVersion(g, rank, dep, before.0, deprecated, readVersion);
        FramesCompose(rank, name, dep, st, before.0, st1);
        RegisteredGrows(deps, e, before.0, st1);
        Ok((st1, FlagsOf(st1.flags, dep).isDeprecated))
  }

  /** The first `e` dependencies are registered in `st`. */
  ghost predicate AllRegistered(deps: seq<string>, e: nat, st: VersionState)
    requires e <= |deps|
  {
    forall j | 0 <= j < e :: deps[j] in st.packages
  }

  lemma RegisteredPrefix(deps: seq<string>, e: nat, st: VersionState)
    requires 0 < e <= |deps|
    ensures AllRegistered(deps, e, st) <==> AllRegistered(deps, e - 1, st) && deps[e - 1] in st.packages
  {
  }

  lemma RegisteredGrows(deps: seq<string>, e: nat, before: VersionState, after: VersionState)
    requires 0 < e <= |deps|
    requires AllRegistered(deps, e - 1, before) && before.packages <= after.packages && deps[e - 1] in after.packages
    ensures AllRegistered(deps, e, after)
  {
  }

  /** Only lower-ranked modules unregistered at the start change flags. */
  ghost predicate Framed(rank: map<string, nat>, name: string, st: VersionState, st1: VersionState)
  {
    forall n | FlagsOf(st1.flags, n) != FlagsOf(st.flags, n) :: n in rank && name in rank && rank[n] < rank[name] && n !in st.packages
  }

  /** A visit of `dep` after the first iterations keeps the loop framed. */
  lemma FramesCompose(rank: map<string, nat>, name: string, dep: string, st: VersionState, mid: VersionState, st1: VersionState)
    requires dep in rank && name in rank && rank[dep] < rank[name]
    requires st.packages <= mid.packages && dep !in mid.packages
    requires Framed(rank, name, st, mid)
    requires forall n | n != dep && FlagsOf(st1.flags, n) != FlagsOf(mid.flags, n) ::
      n in rank && rank[n] < rank[dep] && n !in mid.packages
    ensures Framed(rank, name, st, st1)
  {
    forall n | FlagsOf(st1.flags, n) != FlagsOf(st.flags, n)
      ensures n in rank && name in rank && rank[n] < rank[name] && n !in st.packages
    {
      if FlagsOf(st1.flags, n) == FlagsOf(mid.flags, n) {
        assert FlagsOf(mid.flags, n) != FlagsOf(st.flags, n);
      }
    }
  }

  /** Iteration `j` of the loop visits its dependency: the first `j`
      iterations succeed and leave that dependency unregistered. */
  ghost predicate VisitedAt(g: VersionGraph, rank: map<string, nat>, name: string, j: nat, st: VersionState,
                            deprecated: Option<string> -> Result<bool>,
                            readVersion: string -> Result<Option<string>>)
    requires Ranked(g, rank) && name in g
  {
    && j < |g[name].dependencies|
    && VisitDependencies(g, rank, name, j, st, deprecated, readVersion).Ok?
    && g[name].dependencies[j] !in VisitDependencies(g, rank, name, j, st, deprecated, readVersion).value.0.packages
  }

  /** Whether each of the first `e` iterations visits its dependency. */
  ghost function VisitTrace(g: VersionGraph, rank: map<string, nat>, name: string, e: nat, st: VersionState,
                            deprecated: Option<string> -> Result<bool>,
                            readVersion: string -> Result<Option<string>>): (t: seq<bool>)
    requires Ranked(g, rank) && name in g
    ensures |t| == e
  {
    if e == 0 then [] else VisitTrace(g, rank, name, e - 1, st, deprecated, readVersion) + [VisitedAt(g, rank, name, e - 1, st, deprecated, readVersion)]
  }

  /** Entry `k` of the trace says whether iteration `k` visits. */
  lemma {:induction false} VisitTraceAt(g: VersionGraph, rank: map<string, nat>, name: string, e: nat, st: VersionState,
                                        deprecated: Option<string> -> Result<bool>,
                                        readVersion: string -> Result<Option<string>>, k: nat)
    requires Ranked(g, rank) && name in g && k < e
    ensures VisitTrace(g, rank, name, e, st, deprecated, readVersion)[k] == VisitedAt(g, rank, name, k, st, deprecated, readVersion)
    decreases e
  {
    if k < e - 1 {
      VisitTraceAt(g, rank, name, e - 1, st, deprecated, readVersion, k);
    }
  }

  /** `j` is the last index at which `t` holds. */
  ghost predicate LastIn(t: seq<bool>, j: nat)
  {
    j < |t| && t[j] && forall k | j < k < |t| :: !t[k]
  }

  /** `flag` is the deprecation flag, in `flags`, of the dependency at the
      last index where the trace `t` holds (false when it holds nowhere). */
  ghost predicate FlagOfLast(t: seq<bool>, deps: seq<string>, flags: map<string, Flags>, flag: bool)
    requires |t| <= |deps|
  {
    flag <==> exists j: nat :: LastIn(t, j) && FlagsOf(flags, deps[j]).isDeprecated
  }

  /** One recorded iteration: `visits` says whether iteration `k` visits
      its dependency, `flagsAt[k]` and `flagAt[k]` are the flags and the
      loop's flag before iteration `k`. A visit sets the flag from the
      visited dependency; a skip changes nothing. */
  ghost predicate Recorded(visits: seq<bool>, deps: seq<string>, flagsAt: seq<map<string, Flags>>, flagAt: seq<bool>)
  {
    && |flagsAt| == |flagAt| == |visits| + 1 && |visits| <= |deps|
    && !flagAt[0]
    && forall k | 0 <= k < |visits| ::
         if visits[k] then flagAt[k + 1] == FlagsOf(flagsAt[k + 1], deps[k]).isDeprecated
         else flagAt[k + 1] == flagAt[k] && flagsAt[k + 1] == flagsAt[k]
  }

  /** Along a recorded run, the loop's flag is always the flag of the last
      visited dependency. */
  lemma {:induction false} RecordedLastDecides(visits: seq<bool>, deps: seq<string>, flagsAt: seq<map<string, Flags>>, flagAt: seq<bool>)
    requires Recorded(visits, deps, flagsAt, flagAt)
    ensures FlagOfLast(visits, deps, flagsAt[|visits|], flagAt[|visits|])
    decreases |visits|
  {
    var n := |visits|;
    if n == 0 {
      assert forall j: nat :: !LastIn(visits, j);
    } else {
      var t := visits[..n - 1];
      assert Recorded(t, deps, flagsAt[..n], flagAt[..n]);
      RecordedLastDecides(t, deps, flagsAt[..n], flagAt[..n]);
      assert visits == t + [visits[n - 1]];
      if visits[n - 1] {
        assert LastIn(visits, n - 1);
        forall j: nat | LastIn(visits, j) ensures j == n - 1 {
          if j < n - 1 {
            assert false;
          }
        }
      } else {
        forall j: nat ensures LastIn(visits, j) <==> LastIn(t, j) {
          if LastIn(t, j) {
            assert forall k | j < k < n :: !visits[k];
          }
          if LastIn(visits, j) {
            assert j != n - 1 && t[j];
            assert forall k | j < k < n - 1 :: t[k] == visits[k];
          }
        }
      }
    }
  }

  /** One more iteration: it either skips its dependency, leaving the state
      and the flag alone, or visits it and sets the flag from it. */
  lemma VisitStep(g: VersionGraph, rank: map<string, nat>, name: string, e: nat, st: VersionState,
                  deprecated: Option<string> -> Result<bool>,
                  readVersion: string -> Result<Option<string>>)
    requires Ranked(g, rank) && name in g && 0 < e <= |g[name].dependencies|
    requires VisitDependencies(g, rank, name, e, st, deprecated, readVersion).Ok?
    ensures VisitDependencies(g, rank, name, e - 1, st, deprecated, readVersion).Ok?
    ensures var r := VisitDependencies(g, rank, name, e, st, deprecated, readVersion).value;
      if VisitedAt(g, rank, name, e - 1, st, deprecated, readVersion)
      then r.1 == FlagsOf(r.0.flags, g[name].dependencies[e - 1]).isDeprecated
      else r == VisitDependencies(g, rank, name, e - 1, st, deprecated, readVersion).value
  {
  }

  /** Records the first `e` iterations of the loop: the trace of visits and
      the state after each prefix. */
  lemma {:induction false} RecordVisits(g: VersionGraph, rank: map<string, nat>, name: string, e: nat, st: VersionState,
                                        deprecated: Option<string> -> Result<bool>,
                                        readVersion: string -> Result<Option<string>>)
    returns (flagsAt: seq<map<string, Flags>>, flagAt: seq<bool>)
    requires Ranked(g, rank) && name in g && e <= |g[name].dependencies|
    requires VisitDependencies(g, rank, name, e, st, deprecated, readVersion).Ok?
    ensures Recorded(VisitTrace(g, rank, name, e, st, deprecated, readVersion), g[name].dependencies, flagsAt, flagAt)
    ensures flagsAt[e] == VisitDependencies(g, rank, name, e, st, deprecated, readVersion).value.0.flags
    ensures flagAt[e] == VisitDependencies(g, rank, name, e, st, deprecated, readVersion).value.1
    decreases e
  {
    var r := VisitDependencies(g, rank, name, e, st, deprecated, readVersion).value;
    if e == 0 {
      flagsAt, flagAt := [r.0.flags], [r.1];
    } else {
      VisitStep(g, rank, name, e, st, deprecated, readVersion);
      var fs, fl := RecordVisits(g, rank, name, e - 1, st, deprecated, readVersion);
      var t := VisitTrace(g, rank, name, e - 1, st, deprecated, readVersion);
      var v := VisitedAt(g, rank, name, e - 1, st, deprecated, readVersion);
      assert VisitTrace(g, rank, name, e, st, deprecated, readVersion) == t + [v];
      flagsAt, flagAt := fs + [r.0.flags], fl + [r.1];
      RecordExtend(t, v, g[name].dependencies, fs, fl, r.0.flags, r.1);
    }
  }

  /** Appending one iteration to a recorded run. */
  lemma RecordExtend(t: seq<bool>, v: bool, deps: seq<string>, fs: seq<map<string, Flags>>, fl: seq<bool>,
                     flags: map<string, Flags>, flag: bool)
    requires Recorded(t, deps, fs, fl) && |t| < |deps|
    requires v ==> flag == FlagsOf(flags, deps[|t|]).isDeprecated
    requires !v ==> flag == fl[|t|] && flags == fs[|t|]
    ensures Recorded(t + [v], deps, fs + [flags], fl + [flag])
  {
    var t1, fs1, fl1 := t + [v], fs + [flags], fl + [flag];
    forall k | 0 <= k < |t1|
      ensures if t1[k] then fl1[k + 1] == FlagsOf(fs1[k + 1], deps[k]).isDeprecated
              else fl1[k + 1] == fl1[k] && fs1[k + 1] == fs1[k]
    {
      if k < |t| {
        assert t1[k] == t[k] && fl1[k] == fl[k] && fl1[k + 1] == fl[k + 1] && fs1[k] == fs[k] && fs1[k + 1] == fs[k + 1];
      }
    }
  }

  /** After `e` successful iterations the flag is the deprecation flag of
      the last dependency visited, as it stands at the end, and false when
      none was visited. */
  lemma LastVisitedDecides(g: VersionGraph, rank: map<string, nat>, name: string, e: nat, st: VersionState,
                           deprecated: Option<string> -> Result<bool>,
                           readVersion: string -> Result<Option<string>>)
    requires Ranked(g, rank) && name in g && e <= |g[name].dependencies|
    requires VisitDependencies(g, rank, name, e, st, deprecated, readVersion).Ok?
    ensures var r := VisitDependencies(g, rank, name, e, st, deprecated, readVersion).value;
      FlagOfLast(VisitTrace(g, rank, name, e, st, deprecated, readVersion), g[name].dependencies, r.0.flags, r.1)
  {
    var flagsAt, flagAt := RecordVisits(g, rank, name, e, st, deprecated, readVersion);
    RecordedLastDecides(VisitTrace(g, rank, name, e, st, deprecated, readVersion), g[name].dependencies, flagsAt, flagAt);
  }

  /** A module without dependencies visits nothing: whether it is bumped
      depends on its own deprecation alone. */
  lemma LeafVersion(g: VersionGraph, rank: map<string, nat>, n: string, st: VersionState,
                    deprecated: Option<string> -> Result<bool>, readVersion: string -> Result<Option<string>>)
    requires Ranked(g, rank) && n in g && g[n].dependencies == []
    requires deprecated(g[n].fsLocation).Ok? && readVersion(ShowPath(g[n].fsLocation)).Ok?
    ensures GetNewVersion(g, rank, n, st, deprecated, readVersion) ==
      Conclude(n, deprecated(g[n].fsLocation).value, st, false, BumpOf(g[n].fsLocation, readVersion))
  {
    assert VisitDependencies(g, rank, n, 0, st, deprecated, readVersion) == Ok((st, false));
  }

  /** Only the last visited dependency decides: when module `a` depends on
      the unregistered leaves `b` and then `c`, and only `b` is deprecated,
      `b` gets a new version but `a` keeps its flags, because visiting `c`
      overwrites the flag that `b` set. */
  lemma OnlyLastVisitedDependencyCounts(g: VersionGraph, rank: map<string, nat>, a: string, b: string, c: string,
                                        st: VersionState, deprecated: Option<string> -> Result<bool>,
                                        readVersion: string -> Result<Option<string>>)
    requires Ranked(g, rank) && a in g && g[a].dependencies == [b, c]
    requires g[b].dependencies == [] && g[c].dependencies == [] && b != c
    requires b !in st.packages && c !in st.packages && c !in st.flags
    requires deprecated(g[a].fsLocation) == Ok(false) && deprecated(g[b].fsLocation) == Ok(true)
      && deprecated(g[c].fsLocation) == Ok(false)
    requires forall n | n in g :: readVersion(ShowPath(g[n].fsLocation)).Ok?
    requires BumpOf(g[b].fsLocation, readVersion).Ok?
    ensures var r := GetNewVersion(g, rank, a, st, deprecated, readVersion);
      && r.Ok?
      && FlagsOf(r.value.flags, b) == Flags(true, Some(BumpOf(g[b].fsLocation, readVersion).value))
      && FlagsOf(r.value.flags, a) == FlagsOf(st.flags, a)
  {
    assert b in g[a].dependencies && c in g[a].dependencies;
    var bump := BumpOf(g[b].fsLocation, readVersion).value;
    LeafVersion(g, rank, b, st, deprecated, readVersion);
    var st1 := VersionState(st.flags[b := Flags(true, Some(bump))], st.packages + {b});
    assert GetNewVersion(g, rank, b, st, deprecated, readVersion) == Ok(st1);
    LeafVersion(g, rank, c, st1, deprecated, readVersion);
    var st2 := st1.(packages := st1.packages + {c});
    assert GetNewVersion(g, rank, c, st1, deprecated, readVersion) == Ok(st2);
    assert !FlagsOf(st2.flags, c).isDeprecated;
    assert VisitDependencies(g, rank, a, 0, st, deprecated, readVersion) == Ok((st, false));
    assert VisitDependencies(g, rank, a, 1, st, deprecated, readVersion) == Ok((st1, true));
    assert VisitDependencies(g, rank, a, 2, st, deprecated, readVersion) == Ok((st2, false));
    assert a != b;
  }

  // ---------------------------------------------------------------------------
  // GitHelper: scanning git output
  // ---------------------------------------------------------------------------

  predicate IsWordChar(c: char)
  {
    IsDigit(c) || ('a' <= c <= 'z') || ('A' <= c <= 'Z') || c == '_'
  }

  /** A line matching /^commit \w+/. */
  predicate IsCommitLine(line: string)
  {
    |line| >= 8 && line[..7] == "commit " && IsWordChar(line[7])
  }

  predicate FirstCommitLineAt(lines: seq<string>, i: nat)
  {
    i < |lines| && IsCommitLine(lines[i]) && forall j | 0 <= j < i :: !IsCommitLine(lines[j])
  }

  /** The text after "commit " on the first matching line. */
  function FirstCommit(lines: seq<string>): (r: Option<string>)
    ensures r.None? <==> forall i | 0 <= i < |lines| :: !IsCommitLine(lines[i])
    ensures r.Some? ==> exists i: nat :: FirstCommitLineAt(lines, i) && r.value == lines[i][7..]
    decreases |lines|
  {
    if |lines| == 0 then None
    else if IsCommitLine(lines[0]) then
      assert FirstCommitLineAt(lines, 0);
      Some(lines[0][7..])
    else
      var r := FirstCommit(lines[1..]);
      assert r.Some? ==> exists i: nat :: FirstCommitLineAt(lines, i) && r.value == lines[i][7..] by {
        if r.Some? {
          var i: nat :| FirstCommitLineAt(lines[1..], i) && r.value == lines[1..][i][7..];
          assert lines[i + 1] == lines[1..][i];
          forall j | 0 <= j < i + 1 ensures !IsCommitLine(lines[j]) {
            if j > 0 {
              assert lines[j] == lines[1..][j - 1];
            }
          }
          assert FirstCommitLineAt(lines, i + 1);
        }
      }
      assert (forall i | 0 <= i < |lines[1..]| :: !IsCommitLine(lines[1..][i])) ==>
             (forall i | 0 <= i < |lines| :: !IsCommitLine(lines[i])) by {
        if forall i | 0 <= i < |lines[1..]| :: !IsCommitLine(lines[1..][i]) {
          forall i | 0 <= i < |lines| ensures !IsCommitLine(lines[i]) {
            if i > 0 {
              assert lines[i] == lines[1..][i - 1];
            }
          }
        }
      }
      r
  }

  /** A repository path as string concatenation prints it. */
  function ShowPath(p: Option<string>): string
  {
    match p
    case Some(s) => s
    case None => "undefined"
  }

  function Truthy(s: Option<string>): bool
  {
    s.Some? && s.value != ""
  }

  /** getTagCommit: "" unless both the path and the tag are non-empty;
      otherwise the commit on the first "commit <id>" line of `git show`,
      or "" when no line has one. Output missing altogether (the command
      failed) makes the original throw on `split`. */
  function GetTagCommit(repoPath: Option<string>, tagName: Option<string>, git: string -> Option<string>): (r: Result<string>)
    ensures !(Truthy(repoPath) && Truthy(tagName)) ==> r == Ok("")
    ensures Truthy(repoPath) && Truthy(tagName) ==>
      var out := git("cd " + repoPath.value + " && git show " + tagName.value);
      && (r.Ok? <==> out.Some?)
      && (r.Ok? ==>
            var lines := Split(out.value, '\n');
            && (r.value == "" <==> forall i | 0 <= i < |lines| :: !IsCommitLine(lines[i]))
            && (r.value != "" ==> exists i: nat :: FirstCommitLineAt(lines, i) && r.value == lines[i][7..]))
  {
    if !(Truthy(repoPath) && Truthy(tagName)) then Ok("")
    else
      match git("cd " + repoPath.value + " && git show " + tagName.value)
      case None => Err("TypeError: cannot split undefined")
      case Some(out) => Ok(FirstCommit(Split(out, '\n')).GetOr(""))
  }

  /** getLastRepoCommit: the commit on the first "commit <id>" line of
      `git log -1`; None (undefined) when the output is empty or missing or
      has no such line. */
  function GetLastRepoCommit(repoPath: Option<string>, git: string -> Option<string>): (r: Option<string>)
    ensures var out := git("cd " + ShowPath(repoPath) + " && git log -1");
      && (!Truthy(out) ==> r.None?)
      && (Truthy(out) ==>
            var lines := Split(out.value, '\n');
            && (r.None? <==> forall i | 0 <= i < |lines| :: !IsCommitLine(lines[i]))
            && (r.Some? ==> exists i: nat :: FirstCommitLineAt(lines, i) && r.value == lines[i][7..]))
  {
    var out := git("cd " + ShowPath(repoPath) + " && git log -1");
    if Truthy(out) then
      var lines := Split(out.value, '\n');
      var c := FirstCommit(lines);
      assert Truthy(out) ==>
            var lines := Split(out.value, '\n');
            && (c.None? <==> forall i | 0 <= i < |lines| :: !IsCommitLine(lines[i]));
      c
    else None
  }

  function LastTag(repoPath: Option<string>, git: string -> Option<string>): Option<string>
  {
    git("cd " + ShowPath(repoPath) + " && git describe --abbrev=0 --tags")
  }

  /** isDeprecated: false exactly when the last commit is the commit of the
      last tag. With no last commit the original throws on `localeCompare`
      (compared here as plain string equality). */
  function IsDeprecated(repoPath: Option<string>, git: string -> Option<string>): (r: Result<bool>)
    ensures r.Ok? <==> GetTagCommit(repoPath, LastTag(repoPath, git), git).Ok? && GetLastRepoCommit(repoPath, git).Some?
    ensures r.Ok? ==> (!r.value <==>
      GetLastRepoCommit(repoPath, git).value == GetTagCommit(repoPath, LastTag(repoPath, git), git).value)
  {
    var tagCommit :- GetTagCommit(repoPath, LastTag(repoPath, git), git);
    var last := GetLastRepoCommit(repoPath, git);
    if last.None? then Err("TypeError: last repository commit is undefined")
    else Ok(last.value != tagCommit)
  }
}
