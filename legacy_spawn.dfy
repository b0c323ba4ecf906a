/**
 * The older `spawn`, src/proc_mgmt/proc_mgmt.cpp. It shares the argument arrays and the
 * redirection plan with the newer one. Its child does not close the eventfd, and its `do_exec`
 * also asks `close_range` to unshare the descriptor table. Its parent names the eventfd failure
 * differently, keeps its own write end of the error pipe open while it reads the child's `errno`,
 * never closes the read end, and neither reaps a child that failed to launch nor closes its pidfd.
 */
module LegacyProcMgmt {
  import opened Wrappers
  import opened Io
  import opened ProcMgmt

  /** The outcomes of the calls the older parent makes, in call order. */
  datatype LegacyOutcomes = LegacyOutcomes(
    /** What creating the pipe and making its read end close-on-exec threw, if anything. */
    pipe: Option<Error>, readFd: int, writeFd: int,
    eventfd: CallOutcome,
    fork: CallOutcome,
    pidfd: CallOutcome,
    /** How many bytes the read of the child's `errno` delivered. */
    bytesRead: nat, childErrno: int)

  /**
   * What the kernel guarantees about the outcomes: the descriptors the calls that succeed
   * return are distinct.
   */
  predicate LegacyPlausible(o: LegacyOutcomes)
  {
    && (o.pipe.None? ==> o.readFd != o.writeFd)
    && (o.pipe.None? && o.eventfd.result != -1 ==> o.eventfd.result != o.readFd && o.eventfd.result != o.writeFd)
    && (o.pipe.None? && o.eventfd.result != -1 && o.fork.result != -1 && o.pidfd.result != -1 ==>
          o.pidfd.result != o.readFd && o.pidfd.result != o.writeFd && o.pidfd.result != o.eventfd.result)
  }

  /** Where the older parent ends: the call that failed, or the launch. */
  datatype LegacyStage = PipeSetupFailed | SyncFdFailed | ForkCallFailed | PidfdCallFailed | LaunchCallFailed | Started

  function LegacyStageOf(o: LegacyOutcomes): LegacyStage
  {
    if o.pipe.Some? then PipeSetupFailed
    else if o.eventfd.result == -1 then SyncFdFailed
    else if o.fork.result == -1 then ForkCallFailed
    else if o.pidfd.result == -1 then PidfdCallFailed
    else if o.bytesRead != 0 then LaunchCallFailed
    else Started
  }

  /** What the older `spawn` throws at each stage, or the pidfd it returns. */
  function LegacySpawnResult(path: string, o: LegacyOutcomes): Result<int, Error>
  {
    match LegacyStageOf(o)
    case PipeSetupFailed => Failure(o.pipe.value)
    case SyncFdFailed => Failure(SystemError("Failed to create parent to child sync fd", o.eventfd.errno))
    case ForkCallFailed => Failure(SystemError("Fork failed: ", o.fork.errno))
    case PidfdCallFailed => Failure(SystemError("Failed to create pidfd", o.pidfd.errno))
    case LaunchCallFailed => Failure(SystemError("Failed to launch application " + path, o.childErrno))
    case Started => Success(o.pidfd.result)
  }

  /**
   * What the older parent does at each stage. Leaving `spawn` closes what owners hold: the eventfd
   * and the pipe's write end. The read end has been released and the pidfd is a plain `int` until
   * it is returned, so nothing closes either of them.
   */
  function LegacyParentSteps(o: LegacyOutcomes, fork: Step): seq<Step>
  {
    var rd, wr, ev, pid, pidFd := o.readFd, o.writeFd, o.eventfd.result, o.fork.result, o.pidfd.result;
    var signalled := [OpenFd(rd), OpenFd(wr), OpenFd(ev), fork, PidfdOpen(pid), OpenFd(pidFd), SignalChild, ReadChildErrno];
    match LegacyStageOf(o)
    case PipeSetupFailed => []
    case SyncFdFailed => [OpenFd(rd), OpenFd(wr), CloseFd(wr)]
    case ForkCallFailed => [OpenFd(rd), OpenFd(wr), OpenFd(ev), fork, CloseFd(ev), CloseFd(wr)]
    case PidfdCallFailed =>
      [OpenFd(rd), OpenFd(wr), OpenFd(ev), fork, PidfdOpen(pid), Kill(pid, SIGKILL), WaitPid(pid), CloseFd(ev), CloseFd(wr)]
    case LaunchCallFailed => signalled + [CloseFd(ev), CloseFd(wr)]
    case Started => signalled + [CloseFd(ev), CloseFd(wr)]
  }

  /**
   * The parent side of the older `spawn`: the pipe, then the eventfd, the arrays and `fork`. The
   * parent opens a pidfd, killing and reaping the child if that fails, signals the child and
   * reads its `errno`; any bytes read throw "Failed to launch application <path>", none return
   * the pidfd.
   */
  method LegacySpawn(path: string, argv: seq<string>, env: seq<string>, o: LegacyOutcomes)
    returns (r: Result<int, Error>, steps: seq<Step>)
    ensures r == LegacySpawnResult(path, o)
    ensures steps == LegacyParentSteps(o, ForkWith(path, argv, env))
  {
    steps := [];
    if o.pipe.Some? {
      return Failure(o.pipe.value), steps;
    }
    var readFd, writeFd := o.readFd, o.writeFd;
    if o.eventfd.result == -1 {
      steps := [OpenFd(readFd), OpenFd(writeFd), CloseFd(writeFd)];
      return Failure(SystemError("Failed to create parent to child sync fd", o.eventfd.errno)), steps;
    }
    var eventFd := o.eventfd.result;
    var argvOut := BuildArgv(path, argv);
    var envOut := BuildEnv(env);
    var fork := Fork(argvOut, envOut);
    if o.fork.result == -1 {
      steps := [OpenFd(readFd), OpenFd(writeFd), OpenFd(eventFd), fork, CloseFd(eventFd), CloseFd(writeFd)];
      return Failure(SystemError("Fork failed: ", o.fork.errno)), steps;
    }
    var pid := o.fork.result;
    if o.pidfd.result == -1 {
      steps := [OpenFd(readFd), OpenFd(writeFd), OpenFd(eventFd), fork, PidfdOpen(pid), Kill(pid, SIGKILL), WaitPid(pid),
                CloseFd(eventFd), CloseFd(writeFd)];
      return Failure(SystemError("Failed to create pidfd", o.pidfd.errno)), steps;
    }
    var pidFd := o.pidfd.result;
    steps := [OpenFd(readFd), OpenFd(writeFd), OpenFd(eventFd), fork, PidfdOpen(pid), OpenFd(pidFd), SignalChild, ReadChildErrno]
      + [CloseFd(eventFd), CloseFd(writeFd)];
    if o.bytesRead != 0 {
      return Failure(SystemError("Failed to launch application " + path, o.childErrno)), steps;
    }
    r := Success(pidFd);
  }

  /**
   * The older parent's order: the child is forked only once the pipe and the eventfd exist, and
   * released only after its pidfd exists; a child without a pidfd is killed, then reaped.
   */
  lemma {:induction false} LegacySpawnOrders(o: LegacyOutcomes, fork: Step)
    requires fork.Fork?
    ensures var steps := LegacyParentSteps(o, fork);
      && (fork in steps <==> o.pipe.None? && o.eventfd.result != -1)
      && (SignalChild in steps <==> LegacyStageOf(o) in {LaunchCallFailed, Started})
      && (SignalChild in steps ==> Before(steps, PidfdOpen(o.fork.result), SignalChild))
      && (LegacyStageOf(o) == PidfdCallFailed ==> Before(steps, Kill(o.fork.result, SIGKILL), WaitPid(o.fork.result)))
  {
    var steps := LegacyParentSteps(o, fork);
    match LegacyStageOf(o)
    case PidfdCallFailed =>
      assert steps[5] == Kill(o.fork.result, SIGKILL) && steps[6] == WaitPid(o.fork.result);
    case LaunchCallFailed =>
      assert steps[4] == PidfdOpen(o.fork.result) && steps[6] == SignalChild;
    case Started =>
      assert steps[4] == PidfdOpen(o.fork.result) && steps[6] == SignalChild;
    case _ =>
  }

  /**
   * Unlike the newer parent, the older one still holds its write end of the error pipe when it
   * reads the child's `errno`, and closes it only when it leaves `spawn`; the read therefore
   * cannot see end of file while the parent waits in it.
   */
  lemma {:induction false} LegacyReadsWithWriteEndOpen(o: LegacyOutcomes, fork: Step)
    requires fork.Fork? && LegacyPlausible(o)
    requires LegacyStageOf(o) in {LaunchCallFailed, Started}
    ensures var steps := LegacyParentSteps(o, fork);
      && ReadChildErrno in steps && CloseFd(o.writeFd) in steps
      && !Before(steps, CloseFd(o.writeFd), ReadChildErrno)
  {
    var steps := LegacyParentSteps(o, fork);
    assert steps[9] == CloseFd(o.writeFd);
    assert forall i :: 0 <= i < |steps| && steps[i] == CloseFd(o.writeFd) ==> i == |steps| - 1;
  }

  /**
   * Unlike the newer parent, the older one neither reaps a child that failed to launch nor closes
   * the pidfd it opened for it, and never closes the released read end of the error pipe.
   */
  lemma {:induction false} LegacyLeavesFailedChild(path: string, o: LegacyOutcomes, fork: Step)
    requires fork.Fork? && LegacyPlausible(o)
    ensures var steps := LegacyParentSteps(o, fork);
      && CloseFd(o.readFd) !in steps
      && (LegacyStageOf(o) == LaunchCallFailed ==>
            && LegacySpawnResult(path, o).Failure?
            && OpenFd(o.pidfd.result) in steps && CloseFd(o.pidfd.result) !in steps
            && (forall s :: s in steps ==> !s.WaitPidfd? && !s.WaitPid?))
  {
  }

  /** `sizeof(int)`: how many bytes of `errno` the child writes to the error pipe. */
  const ErrnoBytes := 4

  /**
   * The child branch of the older `spawn`: waits for the parent's signal, closes its copy of the
   * read end and runs `do_exec`, which also unshares the descriptor table. If that returns, the
   * `errno` it reports has been written with the throwing `write`; since `do_exec` is `noexcept`,
   * a failed write (`writeRes`, `writeErr` are the outcome of the system call) ends the child in
   * `std::terminate`, and otherwise it closes the write end and exits with status 127. The
   * eventfd stays open until `execve`.
   */
  method LegacyChild(path: string, argv: seq<CString>, env: seq<CString>, redir: IoRedirection,
                     readFd: int, writeFd: int, dups: seq<CallOutcome>, exec: Option<int>,
                     writeRes: int, writeErr: int)
    returns (steps: seq<Step>)
    requires |dups| == 3
    requires writeRes == -1 || 0 <= writeRes <= ErrnoBytes
    ensures var reported := !(FirstFailedDup(redir, dups).None? && exec.None?);
      steps == [WaitForParent, CloseFd(readFd)] + ExecSteps(path, argv, env, redir, dups, exec, true)
        + if !reported then []
          else if writeRes == -1 && !IsRetryError(writeErr) then [Terminate]
          else [CloseFd(writeFd), Exit(ExecFailedStatus)]
  {
    var execSteps := DoExec(path, argv, env, redir, dups, exec, true);
    steps := [WaitForParent, CloseFd(readFd)] + execSteps;
    if FirstFailedDup(redir, dups).None? && exec.None? {
      return;
    }
    var written := LegacyWrite(seq(ErrnoBytes, _ => 0 as bv8), writeRes, writeErr);
    if written.Failure? {
      steps := steps + [Terminate];
      return;
    }
    steps := steps + [CloseFd(writeFd), Exit(ExecFailedStatus)];
  }
}
