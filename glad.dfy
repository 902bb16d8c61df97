/** The example debuggee example/glad.c: an array of CORES flags, a health
    check over it, an in-place zeroing of one flag, a warm-up loop, and a
    `main` that zeroes the flags named on the command line.

    Sleeping, printing, the thread and `strtol` are not modelled: the
    command-line arguments arrive already converted to integers. */
module Glad {

  const CORES: int := 4

  /** At least one of the first CORES flags is set. */
  predicate Healthy(cores: seq<int>)
    requires |cores| >= CORES
  {
    exists i :: 0 <= i < CORES && cores[i] != 0
  }

  /** `chk_system_health`: 0 when some core is still set, -1 otherwise. */
  method ChkSystemHealth(cores: array<int>) returns (r: int)
    requires cores.Length >= CORES
    ensures r == 0 || r == -1
    ensures r == 0 <==> Healthy(cores[..])
  {
    for i := 0 to CORES
      invariant forall j :: 0 <= j < i ==> cores[j] == 0
    {
      if cores[i] != 0 {
        return 0;
      }
    }
    return -1;
  }

  /** `incinerate`: clears one flag in place and returns 0. The write is
      only defined for an index inside the array. */
  method Incinerate(cores: array<int>, coreNum: int) returns (r: int)
    requires 0 <= coreNum < cores.Length
    modifies cores
    ensures r == 0
    ensures cores[..] == old(cores[..])[coreNum := 0]
  {
    cores[coreNum] := 0;
    return 0;
  }

  /** `warm_neurotoxins`: raises the temperature by 10 per second of sleep
      until it reaches 60; returns 0, the final temperature and the number
      of seconds slept. */
  method WarmNeurotoxins() returns (r: int, temperature: int, slept: nat)
    ensures r == 0 && temperature == 60 && slept == 6
  {
    temperature := 0;
    slept := 0;
    while temperature < 60
      invariant 0 <= temperature <= 60 && temperature == 10 * slept
    {
      slept := slept + 1;
      temperature := temperature + 10;
    }
    return 0, temperature, slept;
  }

  /** How the thread of `release_neurotoxins` ends. */
  datatype ThreadEnd = ReturnedNull | ExitedProcess(status: int)

  /** `release_neurotoxins`: with a non-null context it returns NULL at
      once; otherwise it warms up and ends the whole process with status
      1. */
  method ReleaseNeurotoxins(ctxNonNull: bool) returns (e: ThreadEnd)
    ensures ctxNonNull ==> e == ReturnedNull
    ensures !ctxNonNull ==> e == ExitedProcess(1)
  {
    if ctxNonNull {
      return ReturnedNull;
    }
    var _, _, _ := WarmNeurotoxins();
    return ExitedProcess(1);
  }

  /** How `main` ends: "System error." (returns 0), a write outside
      `cores` (undefined behaviour), or the final long sleep (returns 1). */
  datatype MainExit = SystemError | OutOfBounds(coreNum: int) | Completed

  /** The bound of `main`'s argument filter as written: numbers from 1 up to
      but not including this are accepted. */
  const MAIN_LIMIT: int := 10

  /** The bound that keeps every accepted number inside `cores`. */
  const CORRECTED_LIMIT: int := CORES

  /** `main`'s loop over its arguments, for the filter bound `limit`:
      numbers outside `1 .. limit - 1` are skipped; an accepted number
      outside `cores` is a write out of bounds; otherwise its flag is
      cleared and the health check may end the program. */
  function MainRun(limit: int, cores: seq<int>, args: seq<int>): (e: MainExit)
    requires |cores| == CORES
    ensures e.OutOfBounds? ==> CORES <= e.coreNum < limit && e.coreNum in args
    ensures args == [] ==> e == Completed
    decreases |args|
  {
    if args == [] then Completed
    else
      var n := args[0];
      assert forall x :: x in args[1..] ==> x in args;
      if n <= 0 || n >= limit then MainRun(limit, cores, args[1..])
      else if n >= CORES then OutOfBounds(n)
      else
        var c := cores[n := 0];
        if !Healthy(c) then SystemError else MainRun(limit, c, args[1..])
  }

  /** The flags `main` starts with: `{1}` fills the rest with zeros. */
  const INITIAL_CORES: seq<int> := [1, 0, 0, 0]

  /** Accepted numbers are at least 1, so core 0 stays set and the health
      check never fails: "System error." cannot be printed, whatever the
      filter bound. */
  lemma {:induction false} NoSystemError(limit: int, cores: seq<int>, args: seq<int>)
    requires |cores| == CORES && cores[0] != 0
    ensures MainRun(limit, cores, args) != SystemError
    decreases |args|
  {
    if args != [] {
      var n := args[0];
      if !(n <= 0 || n >= limit) && n < CORES {
        var c := cores[n := 0];
        assert c[0] != 0 && Healthy(c);
        NoSystemError(limit, c, args[1..]);
      } else if n <= 0 || n >= limit {
        NoSystemError(limit, cores, args[1..]);
      }
    }
  }

  /** With the filter as written, `main` writes out of bounds exactly when
      some argument is between CORES and 9. */
  lemma {:induction false} OutOfBoundsIff(cores: seq<int>, args: seq<int>)
    requires |cores| == CORES && cores[0] != 0
    ensures MainRun(MAIN_LIMIT, cores, args).OutOfBounds? <==>
      exists k :: 0 <= k < |args| && CORES <= args[k] < MAIN_LIMIT
    decreases |args|
  {
    if args != [] {
      var n := args[0];
      if n <= 0 || n >= MAIN_LIMIT {
        OutOfBoundsIff(cores, args[1..]);
        assert forall k :: 1 <= k < |args| ==> args[k] == args[1..][k - 1];
        if exists k :: 0 <= k < |args[1..]| && CORES <= args[1..][k] < MAIN_LIMIT {
          var k :| 0 <= k < |args[1..]| && CORES <= args[1..][k] < MAIN_LIMIT;
          assert args[k + 1] == args[1..][k];
        }
      } else if n < CORES {
        var c := cores[n := 0];
        assert c[0] != 0 && Healthy(c);
        OutOfBoundsIff(c, args[1..]);
        assert forall k :: 1 <= k < |args| ==> args[k] == args[1..][k - 1];
        if exists k :: 0 <= k < |args[1..]| && CORES <= args[1..][k] < MAIN_LIMIT {
          var k :| 0 <= k < |args[1..]| && CORES <= args[1..][k] < MAIN_LIMIT;
          assert args[k + 1] == args[1..][k];
        }
      }
    }
  }

  /** The argument 4 passes the filter as written and clears `cores[4]`, one
      past the end of the array. */
  lemma AsWrittenFilterOverruns()
    ensures MainRun(MAIN_LIMIT, INITIAL_CORES, [4]) == OutOfBounds(4)
  {
  }

  /** With the corrected bound, `main` always reaches its final sleep. */
  lemma {:induction false} CorrectedMainCompletes(cores: seq<int>, args: seq<int>)
    requires |cores| == CORES && cores[0] != 0
    ensures MainRun(CORRECTED_LIMIT, cores, args) == Completed
    decreases |args|
  {
    NoSystemError(CORRECTED_LIMIT, cores, args);
    if args != [] {
      var n := args[0];
      if n <= 0 || n >= CORRECTED_LIMIT {
        CorrectedMainCompletes(cores, args[1..]);
      } else {
        var c := cores[n := 0];
        assert c[0] != 0 && Healthy(c);
        CorrectedMainCompletes(c, args[1..]);
      }
    }
  }

  /** `main` with the corrected filter: clears the flag of every accepted
      argument in place and checks the system's health after each. */
  method RunMain(args: seq<int>) returns (exit: MainExit)
    ensures exit == MainRun(CORRECTED_LIMIT, INITIAL_CORES, args)
  {
    var cores := new int[CORES];
    cores[0], cores[1], cores[2], cores[3] := 1, 0, 0, 0;
    assert cores[..] == INITIAL_CORES;
    var i := 0;
    while i < |args|
      invariant 0 <= i <= |args|
      invariant MainRun(CORRECTED_LIMIT, INITIAL_CORES, args) == MainRun(CORRECTED_LIMIT, cores[..], args[i..])
    {
      assert args[i..][1..] == args[i + 1..];
      var coreNum := args[i];
      if coreNum <= 0 || coreNum >= CORRECTED_LIMIT {
        i := i + 1;
        continue;
      }
      var _ := Incinerate(cores, coreNum);
      var health := ChkSystemHealth(cores);
      if health != 0 {
        return SystemError;
      }
      i := i + 1;
    }
    return Completed;
  }
}
