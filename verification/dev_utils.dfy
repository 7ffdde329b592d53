/** The bulk runners of devUtils.ts: pull, build or test every located
    module, in the reverse of the order getModules returns. */
module DevUtils {
  import opened Wrappers
  import opened Commands
  import opened ModuleDetector

  datatype Operation = Pull | Build | Test

  /** The command an operation runs for a module: "git pull" always, the
      declared build or test command only when it is set and non-empty. */
  function CommandFor(op: Operation, m: StaticModule): (c: Option<string>)
    ensures op == Pull ==> c == Some("git pull")
    ensures op == Build ==> (c.Some? <==> m.buildCommand.Some? && m.buildCommand.value != "")
    ensures op == Test ==> (c.Some? <==> m.testCommand.Some? && m.testCommand.value != "")
    ensures c.Some? && op == Build ==> c == m.buildCommand
    ensures c.Some? && op == Test ==> c == m.testCommand
  {
    match op
    case Pull => Some("git pull")
    case Build => if m.buildCommand.Some? && m.buildCommand.value != "" then m.buildCommand else None
    case Test => if m.testCommand.Some? && m.testCommand.value != "" then m.testCommand else None
  }

  /** The single command a module yields, run in its fsLocation; none when
      the module was not located or has no such command. */
  function ActionFor(op: Operation, m: DetectedModule): (a: Option<Action>)
    ensures a.Some? <==> m.fsLocation.Some? && m.fsLocation.value != "" && CommandFor(op, m.info).Some?
    ensures a.Some? ==> a.value == Exec(CommandFor(op, m.info).value, m.fsLocation.value)
  {
    if m.fsLocation.Some? && m.fsLocation.value != "" && CommandFor(op, m.info).Some?
    then Some(Exec(CommandFor(op, m.info).value, m.fsLocation.value))
    else None
  }

  function AsSeq(a: Option<Action>): seq<Action>
  {
    if a.Some? then [a.value] else []
  }

  /** The commands a run issues: the modules taken from last to first. */
  function Schedule(op: Operation, ms: seq<DetectedModule>): (trace: seq<Action>)
    ensures |trace| <= |ms|
    decreases |ms|
  {
    if |ms| == 0 then []
    else AsSeq(ActionFor(op, ms[|ms| - 1])) + Schedule(op, ms[..|ms| - 1])
  }

  lemma {:induction false} ScheduleAppend(op: Operation, a: seq<DetectedModule>, b: seq<DetectedModule>)
    ensures Schedule(op, a + b) == Schedule(op, b) + Schedule(op, a)
    decreases |b|
  {
    if |b| == 0 {
      assert a + b == a;
    } else {
      var n := |b| - 1;
      assert (a + b)[..|a + b| - 1] == a + b[..n];
      assert (a + b)[|a + b| - 1] == b[n];
      ScheduleAppend(op, a, b[..n]);
    }
  }

  /** Command `k` of `trace` is the one module `idx[k]` yields. */
  ghost predicate Attributed(op: Operation, ms: seq<DetectedModule>, trace: seq<Action>, idx: seq<nat>)
  {
    && |idx| == |trace|
    && forall k | 0 <= k < |idx| :: idx[k] < |ms| && ActionFor(op, ms[idx[k]]) == Some(trace[k])
  }

  /** Strictly decreasing indices: reverse order, each module at most once. */
  ghost predicate Descending(idx: seq<nat>)
  {
    forall k, l | 0 <= k < l < |idx| :: idx[k] > idx[l]
  }

  /** `idx` holds exactly the modules that yield a command. */
  ghost predicate Covers(op: Operation, ms: seq<DetectedModule>, idx: seq<nat>)
  {
    forall i | 0 <= i < |ms| :: ActionFor(op, ms[i]).Some? <==> i in idx
  }

  /** `idx` names the module behind each command of `trace`: indices
      strictly decreasing (reverse order), hence each module at most once,
      and exactly the modules that yield a command. */
  ghost predicate ProducedBy(op: Operation, ms: seq<DetectedModule>, trace: seq<Action>, idx: seq<nat>)
  {
    Attributed(op, ms, trace, idx) && Descending(idx) && Covers(op, ms, idx)
  }

  /** Which module produced each scheduled command. */
  function ScheduledIndices(op: Operation, ms: seq<DetectedModule>): (idx: seq<nat>)
    ensures ProducedBy(op, ms, Schedule(op, ms), idx)
    decreases |ms|
  {
    if |ms| == 0 then []
    else
      var n := |ms| - 1;
      var front := ScheduledIndices(op, ms[..n]);
      assert Schedule(op, ms) == AsSeq(ActionFor(op, ms[n])) + Schedule(op, ms[..n]);
      assert Attributed(op, ms[..n], Schedule(op, ms[..n]), front);
      assert forall k | 0 <= k < |front| :: front[k] < n;
      if ActionFor(op, ms[n]).Some? then
        YieldingAttributed(op, ms, Schedule(op, ms[..n]), front);
        YieldingDescending(n, front);
        YieldingCovers(op, ms, front);
        [n] + front
      else
        ProducedBySilent(op, ms, Schedule(op, ms[..n]), front);
        front
  }

  lemma YieldingAttributed(op: Operation, ms: seq<DetectedModule>, trace: seq<Action>, front: seq<nat>)
    requires |ms| > 0 && ActionFor(op, ms[|ms| - 1]).Some?
    requires Attributed(op, ms[..|ms| - 1], trace, front)
    ensures Attributed(op, ms, [ActionFor(op, ms[|ms| - 1]).value] + trace, [|ms| - 1] + front)
  {
    var n := |ms| - 1;
    var r := [n] + front;
    var t := [ActionFor(op, ms[n]).value] + trace;
    forall k | 0 <= k < |r|
      ensures r[k] < |ms| && ActionFor(op, ms[r[k]]) == Some(t[k])
    {
      if k > 0 {
        assert r[k] == front[k - 1] && t[k] == trace[k - 1];
        assert ms[..n][front[k - 1]] == ms[front[k - 1]];
      }
    }
  }

  lemma YieldingDescending(n: nat, front: seq<nat>)
    requires Descending(front) && forall k | 0 <= k < |front| :: front[k] < n
    ensures Descending([n] + front)
  {
    var r := [n] + front;
    forall k, l | 0 <= k < l < |r|
      ensures r[k] > r[l]
    {
      assert r[l] == front[l - 1];
      if k > 0 {
        assert r[k] == front[k - 1];
      }
    }
  }

  lemma YieldingCovers(op: Operation, ms: seq<DetectedModule>, front: seq<nat>)
    requires |ms| > 0 && ActionFor(op, ms[|ms| - 1]).Some?
    requires Covers(op, ms[..|ms| - 1], front)
    ensures Covers(op, ms, [|ms| - 1] + front)
  {
    var n := |ms| - 1;
    var r := [n] + front;
    forall i | 0 <= i < |ms|
      ensures ActionFor(op, ms[i]).Some? <==> i in r
    {
      if i < n {
        assert ms[..n][i] == ms[i];
        assert i in r <==> i in front;
      }
    }
  }

  lemma ProducedBySilent(op: Operation, ms: seq<DetectedModule>, trace: seq<Action>, front: seq<nat>)
    requires |ms| > 0 && ActionFor(op, ms[|ms| - 1]).None?
    requires ProducedBy(op, ms[..|ms| - 1], trace, front)
    ensures ProducedBy(op, ms, trace, front)
  {
    var n := |ms| - 1;
    assert forall i | 0 <= i < n :: ms[..n][i] == ms[i];
    assert n !in front;
  }

  /** Taking module `i` first: the rest's commands come before its own. */
  lemma ScheduleFrom(op: Operation, ms: seq<DetectedModule>, i: nat)
    requires i < |ms|
    ensures Schedule(op, ms[i..]) == Schedule(op, ms[i + 1..]) + AsSeq(ActionFor(op, ms[i]))
  {
    assert ms[i..] == [ms[i]] + ms[i + 1..];
    ScheduleAppend(op, [ms[i]], ms[i + 1..]);
    assert Schedule(op, [ms[i]]) == AsSeq(ActionFor(op, ms[i])) by {
      assert [ms[i]][..0] == [];
    }
  }

  /** The forEach loop of pullAll/buildAll/testAll. A failing command is
      caught and logged, so it never stops the run: the commands issued are
      the schedule whatever the exit codes, and the failures are exactly the
      issued commands that exited non-zero. */
  method RunAll(op: Operation, ms: seq<DetectedModule>, exitOf: Action -> int)
    returns (trace: seq<Action>, failed: seq<Action>)
    ensures trace == Schedule(op, ms)
    ensures forall a :: a in failed <==> a in trace && exitOf(a) != 0
  {
    trace := [];
    failed := [];
    var i := |ms|;
    while i > 0
      invariant 0 <= i <= |ms|
      invariant trace == Schedule(op, ms[i..])
      invariant forall a :: a in failed <==> a in trace && exitOf(a) != 0
    {
      i := i - 1;
      var step := ActionFor(op, ms[i]);
      ScheduleFrom(op, ms, i);
      if step.Some? {
        trace := trace + [step.value];
        if exitOf(step.value) != 0 {
          failed := failed + [step.value];
        }
      }
    }
    assert ms[0..] == ms;
  }

  /** Each scheduled command is its module's command for the operation,
      run in the module's folder. */
  lemma ScheduleCommands(op: Operation, ms: seq<DetectedModule>)
    ensures var idx := ScheduledIndices(op, ms);
      var t := Schedule(op, ms);
      && ProducedBy(op, ms, t, idx)
      && forall k | 0 <= k < |t| ::
           CommandFor(op, ms[idx[k]].info).Some? && t[k] == Exec(CommandFor(op, ms[idx[k]].info).value, ms[idx[k]].fsLocation.value)
  {
    var idx := ScheduledIndices(op, ms);
    var t := Schedule(op, ms);
    forall k | 0 <= k < |t|
      ensures CommandFor(op, ms[idx[k]].info).Some? && t[k] == Exec(CommandFor(op, ms[idx[k]].info).value, ms[idx[k]].fsLocation.value)
    {
      assert ActionFor(op, ms[idx[k]]) == Some(t[k]);
    }
  }

  /** The loop of pullAll over the module list: one "git pull" per located
      module, in that module's folder, last module first. */
  function PullSchedule(ms: seq<DetectedModule>): (r: seq<Action>)
    ensures var idx := ScheduledIndices(Pull, ms);
      && ProducedBy(Pull, ms, r, idx)
      && (forall i | 0 <= i < |ms| :: i in idx <==> ms[i].fsLocation.Some? && ms[i].fsLocation.value != "")
      && forall k | 0 <= k < |r| :: r[k] == Exec("git pull", ms[idx[k]].fsLocation.value)
  {
    ScheduleCommands(Pull, ms);
    Schedule(Pull, ms)
  }

  /** The loop of buildAll: each located module with a non-empty build
      command runs it in its folder, last module first. */
  function BuildSchedule(ms: seq<DetectedModule>): (r: seq<Action>)
    ensures var idx := ScheduledIndices(Build, ms);
      && ProducedBy(Build, ms, r, idx)
      && forall k | 0 <= k < |r| :: r[k] == Exec(ms[idx[k]].info.buildCommand.value, ms[idx[k]].fsLocation.value)
  {
    ScheduleCommands(Build, ms);
    Schedule(Build, ms)
  }

  /** The loop of testAll: each located module with a non-empty test
      command runs it in its folder, last module first. */
  function TestSchedule(ms: seq<DetectedModule>): (r: seq<Action>)
    ensures var idx := ScheduledIndices(Test, ms);
      && ProducedBy(Test, ms, r, idx)
      && forall k | 0 <= k < |r| :: r[k] == Exec(ms[idx[k]].info.testCommand.value, ms[idx[k]].fsLocation.value)
  {
    ScheduleCommands(Test, ms);
    Schedule(Test, ms)
  }

  /** pullAll, buildAll and testAll on the modules getModules finds. */
  function PullAll(root: Dir, d: Descriptor): seq<Action>
  {
    PullSchedule(GetModules(root, d))
  }

  function BuildAll(root: Dir, d: Descriptor): seq<Action>
  {
    BuildSchedule(GetModules(root, d))
  }

  function TestAll(root: Dir, d: Descriptor): seq<Action>
  {
    TestSchedule(GetModules(root, d))
  }
}
