/** The argv and platform predicates of exportedUtils.ts, with argv and
    the platform string passed in instead of read from `process`. */
module CliArgs {
  import opened Wrappers
  import Strings

  /** `j` is the first index at or after `i` that holds `name`. */
  predicate FirstFrom(argv: seq<string>, name: string, i: nat, j: nat)
  {
    i <= j < |argv| && argv[j] == name && forall l | i <= l < j :: argv[l] != name
  }

  /** The loop of getCliArgumentByName from index `i` on: the first index
      holding `name` that is not the last index decides. */
  function ArgumentFrom(argv: seq<string>, name: string, i: nat): (r: Option<string>)
    requires i <= |argv|
    ensures r.Some? <==> exists j | i <= j < |argv| - 1 :: argv[j] == name
    ensures r.Some? ==> exists j | i <= j < |argv| - 1 :: FirstFrom(argv, name, i, j) && r == Some(argv[j + 1])
    decreases |argv| - i
  {
    if i == |argv| then None
    else if argv[i] == name && i < |argv| - 1 then
      assert FirstFrom(argv, name, i, i);
      Some(argv[i + 1])
    else
      var r := ArgumentFrom(argv, name, i + 1);
      assert r.Some? ==> exists j | i <= j < |argv| - 1 :: FirstFrom(argv, name, i, j) && r == Some(argv[j + 1]) by {
        if r.Some? {
          var j :| i + 1 <= j < |argv| - 1 && FirstFrom(argv, name, i + 1, j) && r == Some(argv[j + 1]);
          assert FirstFrom(argv, name, i, j);
        }
      }
      r
  }

  /** getCliArgumentByName: the element after the first occurrence of
      `name`, or None when `name` is absent or only occurs last. */
  function GetCliArgumentByName(argv: seq<string>, name: string): (r: Option<string>)
    ensures r.Some? <==> exists j | 0 <= j < |argv| - 1 :: argv[j] == name
    ensures r.Some? ==> exists j | 0 <= j < |argv| - 1 :: FirstFrom(argv, name, 0, j) && r == Some(argv[j + 1])
  {
    ArgumentFrom(argv, name, 0)
  }

  /** The loop of hasCliArgument from index `i` on: the first occurrence of
      `name` decides. */
  function HasArgumentFrom(argv: seq<string>, name: string, mustHaveValue: bool, i: nat): (r: bool)
    requires i <= |argv|
    ensures !mustHaveValue ==> (r <==> name in argv[i..])
    decreases |argv| - i
  {
    if i == |argv| then false
    else if argv[i] == name then (if mustHaveValue then i < |argv| - 1 else true)
    else
      assert argv[i..] == [argv[i]] + argv[i + 1..];
      HasArgumentFrom(argv, name, mustHaveValue, i + 1)
  }

  /** hasCliArgument: without `mustHaveValue`, whether `name` occurs at all;
      with it, whether its first occurrence is followed by a value. */
  function HasCliArgument(argv: seq<string>, name: string, mustHaveValue: bool): (r: bool)
    ensures !mustHaveValue ==> (r <==> name in argv)
    ensures mustHaveValue ==> (r <==> exists j | 0 <= j < |argv| - 1 :: argv[j] == name)
  {
    assert argv[0..] == argv;
    HasValueAgrees(argv, name, 0);
    HasArgumentFrom(argv, name, mustHaveValue, 0)
  }

  /** Looking at the first occurrence only gives the same answer as
      getCliArgumentByName: a value exists after the first occurrence iff
      some occurrence is not the last element. */
  lemma {:induction false} HasValueAgrees(argv: seq<string>, name: string, i: nat)
    requires i <= |argv|
    ensures HasArgumentFrom(argv, name, true, i) == ArgumentFrom(argv, name, i).Some?
    decreases |argv| - i
  {
    if i < |argv| && argv[i] != name {
      HasValueAgrees(argv, name, i + 1);
    }
  }

  /** isWindows: the platform id starts with "win". */
  function IsWindows(platform: string): (r: bool)
    ensures r <==> |platform| >= 3 && platform[0] == 'w' && platform[1] == 'i' && platform[2] == 'n'
  {
    Strings.IsPrefix("win", platform)
  }
}
