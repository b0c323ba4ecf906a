/**
 * Launching a child process, src/os_services/proc_mgmt/proc_mgmt.cpp: `spawn` builds the child's
 * argument and environment arrays, forks, and synchronises with the child through an eventfd and
 * an error pipe; the child's `do_exec` applies the requested redirections and calls `execve`.
 *
 * No system call is made. Each call's outcome is an input, and what each process does is recorded
 * as a sequence of steps.
 */
module ProcMgmt {
  import opened Wrappers
  import opened Io
  import FD = FileDescriptors

  const STDIN_FILENO: int := 0
  const STDOUT_FILENO: int := 1
  const STDERR_FILENO: int := 2
  const SIGKILL: int := 9

  /** The status the child exits with when it could not run the program. */
  const ExecFailedStatus: int := 127

  /** One element of a C string array: `nullptr` or a string. */
  type CString = Option<string>

  /** What a process does, in order. */
  datatype Step =
    | OpenFd(fd: int)
    | CloseFd(fd: int)
    | Fork(argv: seq<CString>, env: seq<CString>)
    | PidfdOpen(pid: int)
    | Kill(pid: int, signal: int)
    | WaitPid(pid: int)
    | WaitPidfd(pidfd: int)
    | SignalChild
    | ReadChildErrno
    | WaitForParent
    | Dup2(fd: int, target: int)
    | CloseRangeCloexec(first: int, unshare: bool)
    | Execve(path: string, argv: seq<CString>, env: seq<CString>)
    | WriteErrno(errno: int)
    | Exit(status: int)
    /** `std::terminate`: an exception left a `noexcept` function. */
    | Terminate

  /** An `io_redirection`: what to put on standard input, output and error; null keeps it. */
  datatype IoRedirection = IoRedirection(sysin: FD.FdRef, sysout: FD.FdRef, syserr: FD.FdRef)
  {
    /** The three requests, indexed by the descriptor they replace. */
    function Streams(): (s: seq<FD.FdRef>)
      ensures |s| == 3 && s[STDIN_FILENO] == sysin && s[STDOUT_FILENO] == sysout && s[STDERR_FILENO] == syserr
    {
      [sysin, sysout, syserr]
    }
  }

  // ---------------------------------------------------------------------------------------------
  // The argument and environment arrays

  /** The strings `items` as non-null array elements. */
  function Strings(items: seq<string>): (a: seq<CString>)
    ensures |a| == |items| && forall i :: 0 <= i < |items| ==> a[i] == Some(items[i])
  {
    if |items| == 0 then [] else Strings(items[..|items| - 1]) + [Some(items[|items| - 1])]
  }

  /** The strings of a C array read up to its first `nullptr`, as `execve` reads it. */
  function UntilNull(a: seq<CString>): (items: seq<string>)
    ensures |items| <= |a|
  {
    if |a| == 0 || a[0].None? then [] else [a[0].value] + UntilNull(a[1..])
  }

  /** A null-terminated array of `items`: `execve` reads back exactly `items`. */
  lemma {:induction false} UntilNullOfTerminated(items: seq<string>)
    ensures UntilNull(Strings(items) + [None]) == items
    decreases |items|
  {
    if |items| > 0 {
      assert (Strings(items) + [None])[1..] == Strings(items[1..]) + [None];
      UntilNullOfTerminated(items[1..]);
      assert items == [items[0]] + items[1..];
    }
  }

  /**
   * `argv_out`: the path, then each argument pushed in order, then `nullptr`. The array is
   * null-terminated and holds no other `nullptr`, so the child sees exactly the path and the
   * arguments.
   */
  method BuildArgv(path: string, argv: seq<string>) returns (out: seq<CString>)
    ensures out == Strings([path] + argv) + [None]
    ensures |out| == |argv| + 2 && out[0] == Some(path) && out[|out| - 1] == None
    ensures UntilNull(out) == [path] + argv
  {
    out := [Some(path)];
    var i := 0;
    while i < |argv|
      invariant 0 <= i <= |argv|
      invariant out == Strings([path] + argv[..i])
    {
      assert ([path] + argv[..i + 1])[..i + 1] == [path] + argv[..i];
      out := out + [Some(argv[i])];
      i := i + 1;
    }
    assert argv[..i] == argv;
    out := out + [None];
    UntilNullOfTerminated([path] + argv);
  }

  /** `env_out`: each entry pushed in order, then `nullptr`; the child sees exactly `env`. */
  method BuildEnv(env: seq<string>) returns (out: seq<CString>)
    ensures out == Strings(env) + [None]
    ensures |out| == |env| + 1 && out[|out| - 1] == None
    ensures UntilNull(out) == env
  {
    out := [];
    var i := 0;
    while i < |env|
      invariant 0 <= i <= |env|
      invariant out == Strings(env[..i])
    {
      assert env[..i + 1][..i] == env[..i];
      out := out + [Some(env[i])];
      i := i + 1;
    }
    assert env[..i] == env;
    out := out + [None];
    UntilNullOfTerminated(env);
  }

  // ---------------------------------------------------------------------------------------------
  // The child

  /**
   * The first redirection whose `dup2` fails, among the non-null ones: `dups[k]` is the outcome of
   * the `dup2` onto descriptor `k`.
   */
  function FirstFailedDup(redir: IoRedirection, dups: seq<CallOutcome>): (k: Option<nat>)
    requires |dups| == 3
    ensures k.Some? ==> k.value < 3 && redir.Streams()[k.value].IsValid() && dups[k.value].result == -1
    ensures forall j :: 0 <= j < 3 && (k.None? || j < k.value) ==> !(redir.Streams()[j].IsValid() && dups[j].result == -1)
  {
    if redir.sysin.IsValid() && dups[0].result == -1 then Some(0)
    else if redir.sysout.IsValid() && dups[1].result == -1 then Some(1)
    else if redir.syserr.IsValid() && dups[2].result == -1 then Some(2)
    else Option.None
  }

  /** The `dup2` calls made for the first `n` requests, in the order they are made. */
  function Dups(redir: IoRedirection, n: nat): (steps: seq<Step>)
    requires n <= 3
    ensures |steps| <= n
  {
    if n == 0 then []
    else
      var s := redir.Streams()[n - 1];
      Dups(redir, n - 1) + if s.IsValid() then [Dup2(s.handle, n - 1)] else []
  }

  /**
   * The redirections applied are exactly the non-null requests, each onto the descriptor it
   * replaces and with the descriptor it names, in increasing order of target.
   */
  lemma {:induction false} DupsExactlyNonNull(redir: IoRedirection, n: nat)
    requires n <= 3
    ensures forall s :: s in Dups(redir, n) ==>
      (s.Dup2? && 0 <= s.target < n && redir.Streams()[s.target].IsValid() && s.fd == redir.Streams()[s.target].handle)
    ensures forall i, j :: 0 <= i < j < |Dups(redir, n)| ==> Dups(redir, n)[i].target < Dups(redir, n)[j].target
    ensures forall t :: 0 <= t < n && redir.Streams()[t].IsValid() ==> Dup2(redir.Streams()[t].handle, t) in Dups(redir, n)
  {
    if n > 0 {
      DupsExactlyNonNull(redir, n - 1);
      var earlier := Dups(redir, n - 1);
      var s := redir.Streams()[n - 1];
      if s.IsValid() {
        var all := Dups(redir, n);
        assert all == earlier + [Dup2(s.handle, n - 1)];
        forall i, j | 0 <= i < j < |all|
          ensures all[i].target < all[j].target
        {
          if j == |earlier| {
            assert all[i] == earlier[i] && earlier[i] in earlier;
          } else {
            assert all[i] == earlier[i] && all[j] == earlier[j];
          }
        }
      }
    }
  }

  /**
   * The steps of `do_exec`: the `dup2` calls up to the first that fails, then the report of its
   * `errno`; or, when none fails, all of them, `close_range` and `execve`, then the report of
   * `execve`'s `errno` if it returns.
   */
  function ExecSteps(path: string, argv: seq<CString>, env: seq<CString>, redir: IoRedirection,
                     dups: seq<CallOutcome>, exec: Option<int>, unshare: bool): seq<Step>
    requires |dups| == 3
  {
    var k := FirstFailedDup(redir, dups);
    if k.Some? then Dups(redir, k.value + 1) + [WriteErrno(dups[k.value].errno)]
    else Dups(redir, 3) + [CloseRangeCloexec(STDERR_FILENO + 1, unshare), Execve(path, argv, env)]
         + if exec.Some? then [WriteErrno(exec.value)] else []
  }

  /**
   * `do_exec`: the non-null redirections are applied with `dup2` onto 0, 1 and 2 in that order,
   * and the first failure skips the rest; then every descriptor above standard error is marked
   * close-on-exec and `execve` runs the program. If `execve` returns (`exec` holds its `errno`), or
   * a `dup2` failed, the `errno` of the failing call is written to the error stream.
   * `unshare` is whether `close_range` is also asked to unshare the descriptor table.
   */
  method DoExec(path: string, argv: seq<CString>, env: seq<CString>, redir: IoRedirection,
                dups: seq<CallOutcome>, exec: Option<int>, unshare: bool) returns (steps: seq<Step>)
    requires |dups| == 3
    ensures steps == ExecSteps(path, argv, env, redir, dups, exec, unshare)
  {
    steps := [];
    var failure: Option<int> := Option.None;
    ghost var k := FirstFailedDup(redir, dups);
    if redir.sysin.IsValid() {
      steps := steps + [Dup2(redir.sysin.handle, STDIN_FILENO)];
      if dups[0].result == -1 {
        failure := Some(dups[0].errno);
      }
    }
    assert steps == Dups(redir, 1);
    assert failure.Some? ==> k == Some(0) && failure.value == dups[0].errno;
    if failure.None? && redir.sysout.IsValid() {
      steps := steps + [Dup2(redir.sysout.handle, STDOUT_FILENO)];
      if dups[1].result == -1 {
        failure := Some(dups[1].errno);
      }
    }
    assert failure.None? ==> steps == Dups(redir, 2);
    assert failure.Some? ==> k.Some? && k.value < 2 && steps == Dups(redir, k.value + 1) && failure.value == dups[k.value].errno;
    if failure.None? && redir.syserr.IsValid() {
      steps := steps + [Dup2(redir.syserr.handle, STDERR_FILENO)];
      if dups[2].result == -1 {
        failure := Some(dups[2].errno);
      }
    }
    assert failure.None? ==> k.None? && steps == Dups(redir, 3);
    assert failure.Some? ==> k.Some? && steps == Dups(redir, k.value + 1) && failure.value == dups[k.value].errno;
    if failure.None? {
      steps := steps + [CloseRangeCloexec(STDERR_FILENO + 1, unshare), Execve(path, argv, env)];
      if exec.None? {
        return;
      }
      failure := exec;
    }
    steps := steps + [WriteErrno(failure.value)];
  }

  /**
   * What `do_exec` promises: `execve` is reached exactly when no `dup2` fails; before it, exactly
   * the non-null redirections have been applied, in order, and the other descriptors marked
   * close-on-exec; otherwise the last thing done is reporting the failing call's `errno`.
   */
  lemma {:induction false} DoExecReachesExecExactlyWhenRedirected(
    path: string, argv: seq<CString>, env: seq<CString>, redir: IoRedirection,
    dups: seq<CallOutcome>, exec: Option<int>, unshare: bool)
    requires |dups| == 3
    ensures var steps := ExecSteps(path, argv, env, redir, dups, exec, unshare);
      && (Execve(path, argv, env) in steps <==> FirstFailedDup(redir, dups).None?)
      && (Execve(path, argv, env) in steps ==>
            && (forall t :: 0 <= t < 3 && redir.Streams()[t].IsValid() ==> Dup2(redir.Streams()[t].handle, t) in steps)
            && Before(steps, CloseRangeCloexec(STDERR_FILENO + 1, unshare), Execve(path, argv, env)))
    ensures var steps := ExecSteps(path, argv, env, redir, dups, exec, unshare);
      (FirstFailedDup(redir, dups).Some? || exec.Some?) ==>
        |steps| > 0 && steps[|steps| - 1] == WriteErrno(if FirstFailedDup(redir, dups).Some? then dups[FirstFailedDup(redir, dups).value].errno else exec.value)
    ensures var steps := ExecSteps(path, argv, env, redir, dups, exec, unshare);
      forall s :: s in steps ==>
        || (s.Dup2? && 0 <= s.target < 3 && redir.Streams()[s.target].IsValid() && s.fd == redir.Streams()[s.target].handle)
        || s.CloseRangeCloexec? || s.Execve? || s.WriteErrno?
  {
    var k := FirstFailedDup(redir, dups);
    var steps := ExecSteps(path, argv, env, redir, dups, exec, unshare);
    if k.Some? {
      DupsExactlyNonNull(redir, k.value + 1);
      assert Execve(path, argv, env) !in Dups(redir, k.value + 1);
    } else {
      DupsExactlyNonNull(redir, 3);
      var n := |Dups(redir, 3)|;
      assert steps[n] == CloseRangeCloexec(STDERR_FILENO + 1, unshare) && steps[n + 1] == Execve(path, argv, env);
    }
  }

  /**
   * The child branch of `spawn`: waits until the parent signals the eventfd, closes the eventfd
   * and its copy of the error pipe's read end, and runs `do_exec` with the write end as error
   * stream. If that returns, it closes the write end and exits with status 127.
   */
  method Child(path: string, argv: seq<CString>, env: seq<CString>, redir: IoRedirection,
               eventFd: int, readFd: int, writeFd: int, dups: seq<CallOutcome>, exec: Option<int>)
    returns (steps: seq<Step>)
    requires |dups| == 3
    ensures steps == [WaitForParent, CloseFd(eventFd), CloseFd(readFd)] + ExecSteps(path, argv, env, redir, dups, exec, false)
      + if FirstFailedDup(redir, dups).None? && exec.None? then [] else [CloseFd(writeFd), Exit(ExecFailedStatus)]
  {
    var execSteps := DoExec(path, argv, env, redir, dups, exec, false);
    steps := [WaitForParent, CloseFd(eventFd), CloseFd(readFd)] + execSteps;
    if FirstFailedDup(redir, dups).None? && exec.None? {
      return;
    }
    steps := steps + [CloseFd(writeFd), Exit(ExecFailedStatus)];
  }

  // ---------------------------------------------------------------------------------------------
  // The parent

  /** The outcomes of the calls the parent makes, in call order. */
  datatype ParentOutcomes = ParentOutcomes(
    pipe: CallOutcome, readFd: FD.Int32, writeFd: FD.Int32,
    cloexec: CallOutcome,
    eventfd: CallOutcome,
    fork: CallOutcome,
    pidfd: CallOutcome,
    errorRead: seq<CallOutcome>, childErrno: int)

  /**
   * What the kernel guarantees about the outcomes: a successful `pipe`, `eventfd` or
   * `pidfd_open` yields a fresh descriptor, distinct from the others; a successful `fork` a
   * positive pid; and the read of the child's `errno` stops with at most its four bytes.
   */
  predicate Plausible(o: ParentOutcomes)
  {
    && (o.pipe.result != -1 ==> 0 <= o.readFd && 0 <= o.writeFd && o.readFd != o.writeFd)
    && (o.eventfd.result != -1 ==>
          0 <= o.eventfd.result <= 0x7FFF_FFFF && o.eventfd.result != o.readFd && o.eventfd.result != o.writeFd)
    && (o.fork.result != -1 ==> o.fork.result > 0)
    && (o.pidfd.result != -1 ==>
          && 0 <= o.pidfd.result <= 0x7FFF_FFFF
          && o.pidfd.result != o.readFd && o.pidfd.result != o.writeFd && o.pidfd.result != o.eventfd.result)
    && (exists i :: 0 <= i < |o.errorRead| && !Interrupted(o.errorRead[i]))
    && (forall i :: 0 <= i < |o.errorRead| ==> -1 <= o.errorRead[i].result <= 4)
  }

  /** `a` is done, and later `b`. */
  predicate Before(steps: seq<Step>, a: Step, b: Step)
  {
    exists i, j :: 0 <= i < j < |steps| && steps[i] == a && steps[j] == b
  }

  /** Every call up to and including `fork` succeeded, so a child exists. */
  predicate Forked(o: ParentOutcomes)
  {
    o.pipe.result != -1 && o.cloexec.result != -1 && o.eventfd.result != -1 && o.fork.result != -1
  }

  /** The last call of the read of the child's `errno`, after retries on EINTR. */
  ghost function ErrnoRead(o: ParentOutcomes): CallOutcome
    requires exists i :: 0 <= i < |o.errorRead| && !Interrupted(o.errorRead[i])
  {
    o.errorRead[FirstStop(o.errorRead)]
  }

  /** Where the parent side of `spawn` ends: the call that failed, or the launch. */
  datatype Stage =
    | PipeFailed | CloexecFailed | EventfdFailed | ForkFailed | PidfdFailed | ReadFailed | LaunchFailed
    | Launched

  /**
   * The calls of `spawn` in the order they are made; the first that fails ends it. The read of
   * the child's `errno` fails only on an error other than would-block, and reports a failed launch
   * when it returns any bytes.
   */
  ghost function StageOf(o: ParentOutcomes): Stage
    requires exists i :: 0 <= i < |o.errorRead| && !Interrupted(o.errorRead[i])
  {
    if o.pipe.result == -1 then PipeFailed
    else if o.cloexec.result == -1 then CloexecFailed
    else if o.eventfd.result == -1 then EventfdFailed
    else if o.fork.result == -1 then ForkFailed
    else if o.pidfd.result == -1 then PidfdFailed
    else if ErrnoRead(o).result < 0 && !IsRetryError(ErrnoRead(o).errno) then ReadFailed
    else if ErrnoRead(o).result > 0 then LaunchFailed
    else Launched
  }

  /** What `spawn` throws at each stage, or the pidfd it returns. */
  ghost function SpawnResult(path: string, o: ParentOutcomes): Result<int, Error>
    requires exists i :: 0 <= i < |o.errorRead| && !Interrupted(o.errorRead[i])
  {
    match StageOf(o)
    case PipeFailed => Failure(SystemError("Failed to create pipe", o.pipe.errno))
    case CloexecFailed => Failure(SystemError("Failed to set FD_CLOEXEC on pipe read end", o.cloexec.errno))
    case EventfdFailed => Failure(SystemError("Failed to create eventfd", o.eventfd.errno))
    case ForkFailed => Failure(SystemError("Fork failed: ", o.fork.errno))
    case PidfdFailed => Failure(SystemError("Failed to create pidfd", o.pidfd.errno))
    case ReadFailed => Failure(SystemError("I/O operation failed", ErrnoRead(o).errno))
    case LaunchFailed => Failure(SystemError("Failed to launch application " + path, o.childErrno))
    case Launched => Success(o.pidfd.result)
  }

  /**
   * What the parent does at each stage. Leaving `spawn` closes what owners still hold, in this
   * order: the pidfd when it throws, the eventfd, and the pipe's write end if the parent has not
   * closed it yet. The read end is released from its owner once it is close-on-exec, so only an
   * explicit close reaches it: after the read in the source as written, and also on every throw
   * after the release when `closeReleased` holds.
   */
  ghost function ParentSteps(o: ParentOutcomes, fork: Step, closeReleased: bool): seq<Step>
    requires exists i :: 0 <= i < |o.errorRead| && !Interrupted(o.errorRead[i])
  {
    var rd, wr, ev, pid, pidFd := o.readFd, o.writeFd, o.eventfd.result, o.fork.result, o.pidfd.result;
    var released := if closeReleased then [CloseFd(rd)] else [];
    var signalled := [OpenFd(rd), OpenFd(wr), OpenFd(ev), fork, CloseFd(wr), PidfdOpen(pid), OpenFd(pidFd), SignalChild, ReadChildErrno];
    match StageOf(o)
    case PipeFailed => []
    case CloexecFailed => [OpenFd(rd), OpenFd(wr), CloseFd(wr), CloseFd(rd)]
    case EventfdFailed => [OpenFd(rd), OpenFd(wr), CloseFd(wr)] + released
    case ForkFailed => [OpenFd(rd), OpenFd(wr), OpenFd(ev), fork, CloseFd(ev), CloseFd(wr)] + released
    case PidfdFailed =>
      [OpenFd(rd), OpenFd(wr), OpenFd(ev), fork, CloseFd(wr), PidfdOpen(pid), Kill(pid, SIGKILL), WaitPid(pid), CloseFd(ev)]
      + released
    case ReadFailed => signalled + [CloseFd(pidFd), CloseFd(ev)] + released
    case LaunchFailed => signalled + [CloseFd(rd), WaitPidfd(pidFd), CloseFd(pidFd), CloseFd(ev)]
    case Launched => signalled + [CloseFd(rd), CloseFd(ev)]
  }

  /** The `Fork` step of `spawn`: the arrays it hands to the child. */
  function ForkWith(path: string, argv: seq<string>, env: seq<string>): (s: Step)
    ensures s.Fork? && UntilNull(s.argv) == [path] + argv && UntilNull(s.env) == env
  {
    UntilNullOfTerminated([path] + argv);
    UntilNullOfTerminated(env);
    Fork(Strings([path] + argv) + [None], Strings(env) + [None])
  }

  /**
   * The parent side of `spawn`, as written: creates the error pipe and releases its read end as
   * close-on-exec, creates the eventfd, builds the arrays and forks. It then closes its write end
   * and opens a pidfd for the child, killing and reaping the child if that fails; signals the
   * child through the eventfd; and reads the child's `errno` from the pipe. A non-empty read
   * reaps the child and throws "Failed to launch application <path>"; an empty one returns the
   * pidfd.
   */
  method SpawnAsWritten(path: string, argv: seq<string>, env: seq<string>, o: ParentOutcomes)
    returns (r: Result<int, Error>, steps: seq<Step>)
    requires Plausible(o)
    ensures r == SpawnResult(path, o)
    ensures steps == ParentSteps(o, ForkWith(path, argv, env), false)
  {
    r, steps := SpawnParent(path, argv, env, o, false);
  }

  /**
   * `spawn` with the released read end of the error pipe closed on every path, as the explicit
   * closes after the read evidently intend: the same calls, results and order as
   * `SpawnAsWritten`, with the read end closed last on every throw after the release.
   */
  method Spawn(path: string, argv: seq<string>, env: seq<string>, o: ParentOutcomes)
    returns (r: Result<int, Error>, steps: seq<Step>)
    requires Plausible(o)
    ensures r == SpawnResult(path, o)
    ensures steps == ParentSteps(o, ForkWith(path, argv, env), true)
  {
    r, steps := SpawnParent(path, argv, env, o, true);
  }

  /** The steps of `spawn`, parameterised by whether a throw after the release closes the read end. */
  method SpawnParent(path: string, argv: seq<string>, env: seq<string>, o: ParentOutcomes, closeReleased: bool)
    returns (r: Result<int, Error>, steps: seq<Step>)
    requires Plausible(o)
    ensures r == SpawnResult(path, o)
    ensures steps == ParentSteps(o, ForkWith(path, argv, env), closeReleased)
  {
    steps := [];
    if o.pipe.result == -1 {
      return Failure(SystemError("Failed to create pipe", o.pipe.errno)), steps;
    }
    var readFd, writeFd := o.readFd, o.writeFd;
    if o.cloexec.result == -1 {
      steps := [OpenFd(readFd), OpenFd(writeFd), CloseFd(writeFd), CloseFd(readFd)];
      return Failure(SystemError("Failed to set FD_CLOEXEC on pipe read end", o.cloexec.errno)), steps;
    }
    var released := if closeReleased then [CloseFd(readFd)] else [];
    if o.eventfd.result == -1 {
      steps := [OpenFd(readFd), OpenFd(writeFd), CloseFd(writeFd)] + released;
      return Failure(SystemError("Failed to create eventfd", o.eventfd.errno)), steps;
    }
    var eventFd := o.eventfd.result;
    var argvOut := BuildArgv(path, argv);
    var envOut := BuildEnv(env);
    var fork := Fork(argvOut, envOut);
    if o.fork.result == -1 {
      steps := [OpenFd(readFd), OpenFd(writeFd), OpenFd(eventFd), fork, CloseFd(eventFd), CloseFd(writeFd)] + released;
      return Failure(SystemError("Fork failed: ", o.fork.errno)), steps;
    }
    r, steps := InParent(path, o, fork, released);
  }

  /** The parent's branch of `spawn` after a successful `fork`. */
  method InParent(path: string, o: ParentOutcomes, fork: Step, released: seq<Step>)
    returns (r: Result<int, Error>, steps: seq<Step>)
    requires Plausible(o) && Forked(o)
    requires released == [] || released == [CloseFd(o.readFd)]
    ensures r == SpawnResult(path, o)
    ensures steps == ParentSteps(o, fork, released != [])
  {
    var readFd, writeFd, eventFd, pid := o.readFd, o.writeFd, o.eventfd.result, o.fork.result;
    if o.pidfd.result == -1 {
      steps := [OpenFd(readFd), OpenFd(writeFd), OpenFd(eventFd), fork, CloseFd(writeFd), PidfdOpen(pid),
                Kill(pid, SIGKILL), WaitPid(pid), CloseFd(eventFd)] + released;
      return Failure(SystemError("Failed to create pidfd", o.pidfd.errno)), steps;
    }
    var pidFd := o.pidfd.result;
    var signalled := [OpenFd(readFd), OpenFd(writeFd), OpenFd(eventFd), fork, CloseFd(writeFd), PidfdOpen(pid),
                      OpenFd(pidFd), SignalChild, ReadChildErrno];
    var read := Transfer(o.errorRead);
    if read.Failure? {
      steps := signalled + [CloseFd(pidFd), CloseFd(eventFd)] + released;
      return Failure(read.error), steps;
    }
    if read.value.BytesTransferred() != 0 {
      steps := signalled + [CloseFd(readFd), WaitPidfd(pidFd), CloseFd(pidFd), CloseFd(eventFd)];
      return Failure(SystemError("Failed to launch application " + path, o.childErrno)), steps;
    }
    steps := signalled + [CloseFd(readFd), CloseFd(eventFd)];
    r := Success(pidFd);
  }

  // ---------------------------------------------------------------------------------------------
  // What the parent promises

  /**
   * `spawn` returns a pidfd exactly when every call succeeded and the child's read of its error
   * pipe delivered nothing, that is when `execve` closed the pipe; the pidfd is the one opened
   * for the child.
   */
  lemma SpawnSucceedsExactlyWhenLaunched(path: string, o: ParentOutcomes)
    requires Plausible(o)
    ensures SpawnResult(path, o).Success? <==>
      Forked(o) && o.pidfd.result != -1 && (ErrnoRead(o).result == 0 || (ErrnoRead(o).result < 0 && IsRetryError(ErrnoRead(o).errno)))
    ensures SpawnResult(path, o).Success? ==> SpawnResult(path, o).value == o.pidfd.result
    ensures Forked(o) && o.pidfd.result != -1 && ErrnoRead(o).result > 0 ==>
      SpawnResult(path, o) == Failure(SystemError("Failed to launch application " + path, o.childErrno))
  {
  }

  /**
   * The order `spawn` keeps: the arrays are built and the child forked only once the pipe and
   * the eventfd exist; the child is only released after its pidfd exists, and after the parent
   * dropped its write end of the error pipe, so that the read of the child's `errno` sees end of
   * file once `execve` closes the child's copy; a child without a pidfd is killed, then reaped; a
   * child that failed to launch is reaped.
   */
  ghost predicate OrdersAsSpawnDoes(o: ParentOutcomes, fork: Step, steps: seq<Step>)
    requires exists i :: 0 <= i < |o.errorRead| && !Interrupted(o.errorRead[i])
  {
    && (fork in steps <==> o.pipe.result != -1 && o.cloexec.result != -1 && o.eventfd.result != -1)
    && (SignalChild in steps <==> Forked(o) && o.pidfd.result != -1)
    && (SignalChild in steps ==>
          && Before(steps, PidfdOpen(o.fork.result), SignalChild)
          && Before(steps, CloseFd(o.writeFd), ReadChildErrno)
          && Before(steps, SignalChild, ReadChildErrno))
    && (Forked(o) && o.pidfd.result == -1 ==> Before(steps, Kill(o.fork.result, SIGKILL), WaitPid(o.fork.result)))
    && (Forked(o) && o.pidfd.result != -1 && ErrnoRead(o).result > 0 ==> WaitPidfd(o.pidfd.result) in steps)
  }

  lemma {:induction false} SpawnOrders(o: ParentOutcomes, fork: Step, closeReleased: bool)
    requires Plausible(o) && fork.Fork?
    ensures OrdersAsSpawnDoes(o, fork, ParentSteps(o, fork, closeReleased))
  {
    var steps := ParentSteps(o, fork, closeReleased);
    match StageOf(o)
    case PidfdFailed =>
      assert steps[6] == Kill(o.fork.result, SIGKILL) && steps[7] == WaitPid(o.fork.result);
    case ReadFailed =>
      assert steps[4] == CloseFd(o.writeFd) && steps[5] == PidfdOpen(o.fork.result);
      assert steps[7] == SignalChild && steps[8] == ReadChildErrno;
    case LaunchFailed =>
      assert steps[4] == CloseFd(o.writeFd) && steps[5] == PidfdOpen(o.fork.result);
      assert steps[7] == SignalChild && steps[8] == ReadChildErrno;
    case Launched =>
      assert steps[4] == CloseFd(o.writeFd) && steps[5] == PidfdOpen(o.fork.result);
      assert steps[7] == SignalChild && steps[8] == ReadChildErrno;
    case _ =>
  }

  /**
   * The descriptors the parent owns: the error pipe's write end, the eventfd and the pidfd. Each
   * one opened is closed before `spawn` returns or throws, except the pidfd it returns, which is
   * not closed.
   */
  ghost predicate ClosesOwned(o: ParentOutcomes, steps: seq<Step>, r: Result<int, Error>)
  {
    && (o.pipe.result != -1 ==> CloseFd(o.writeFd) in steps)
    && (o.pipe.result != -1 && o.cloexec.result != -1 && o.eventfd.result != -1 ==> CloseFd(o.eventfd.result) in steps)
    && (Forked(o) && o.pidfd.result != -1 ==> (CloseFd(o.pidfd.result) in steps <==> r.Failure?))
  }

  lemma {:induction false} SpawnClosesOwned(path: string, o: ParentOutcomes, fork: Step, closeReleased: bool)
    requires Plausible(o) && fork.Fork?
    ensures ClosesOwned(o, ParentSteps(o, fork, closeReleased), SpawnResult(path, o))
  {
  }

  /**
   * As written, the released read end of the error pipe is closed only once the child's `errno`
   * has been read: every throw between the release and the read leaves it open.
   */
  lemma {:induction false} ReadEndLeaksAsWritten(o: ParentOutcomes, fork: Step)
    requires Plausible(o) && fork.Fork?
    requires o.pipe.result != -1 && o.cloexec.result != -1
    ensures CloseFd(o.readFd) !in ParentSteps(o, fork, false) <==>
      StageOf(o) in {EventfdFailed, ForkFailed, PidfdFailed, ReadFailed}
  {
  }

  /** A `fork` that fails with EAGAIN after the pipe and the eventfd exist leaks the read end. */
  lemma ForkFailureLeaksReadEnd()
    ensures var o := ParentOutcomes(CallOutcome(0, 0), 3, 4, CallOutcome(0, 0), CallOutcome(5, 0),
                                    CallOutcome(-1, EAGAIN), CallOutcome(-1, 0), [CallOutcome(0, 0)], 0);
      && Plausible(o)
      && OpenFd(3) in ParentSteps(o, Fork([], []), false)
      && CloseFd(3) !in ParentSteps(o, Fork([], []), false)
  {
    var o := ParentOutcomes(CallOutcome(0, 0), 3, 4, CallOutcome(0, 0), CallOutcome(5, 0),
                            CallOutcome(-1, EAGAIN), CallOutcome(-1, 0), [CallOutcome(0, 0)], 0);
    assert !Interrupted(o.errorRead[0]);
    assert StageOf(o) == ForkFailed;
  }

  /** With the read end closed on every throw, it is closed whenever the pipe was created. */
  lemma {:induction false} SpawnClosesReadEnd(o: ParentOutcomes, fork: Step)
    requires Plausible(o) && fork.Fork?
    ensures o.pipe.result != -1 ==> CloseFd(o.readFd) in ParentSteps(o, fork, true)
  {
  }
}
