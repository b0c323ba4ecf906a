/**
 * I/O result classification and the EINTR retry loop: `do_while_eintr`
 * (src/os_services/error_handling/error_handling.hpp and src/os_services/io/io.hpp hold the same
 * template), `io_result` and the `read`/`write` helpers of src/os_services/io/io.hpp, and the older
 * suffix-returning `read`/`write` of src/io/io.hpp.
 *
 * A system call is not run: what it would return is given as a `CallOutcome`, its return value
 * with the value `errno` has afterwards.
 */
module Io {
  import opened Wrappers

  const EINTR: int := 4
  const EAGAIN: int := 11
  const EWOULDBLOCK: int := 11

  /** What one call of a system function returned, and `errno` after it. */
  datatype CallOutcome = CallOutcome(result: int, errno: int)

  /** The call was interrupted by a signal before doing anything, so `do_while_eintr` repeats it. */
  predicate Interrupted(o: CallOutcome)
  {
    o.result == -1 && o.errno == EINTR
  }

  /** The index of the first outcome that is not an interruption. */
  ghost function FirstStop(outcomes: seq<CallOutcome>): (k: nat)
    requires exists i :: 0 <= i < |outcomes| && !Interrupted(outcomes[i])
    ensures k < |outcomes| && !Interrupted(outcomes[k])
    ensures forall j :: 0 <= j < k ==> Interrupted(outcomes[j])
  {
    if !Interrupted(outcomes[0]) then 0
    else
      var i :| 0 <= i < |outcomes| && !Interrupted(outcomes[i]);
      assert !Interrupted(outcomes[1..][i - 1]);
      1 + FirstStop(outcomes[1..])
  }

  /**
   * `do_while_eintr`: calls the function, whose successive calls give `outcomes`, as long as it
   * returns -1 with `errno` EINTR. `errno` is preset to EINTR and the result to -1, so the function
   * is called at least once. Returns the last call's result, the `errno` left by it, and how many
   * calls were made.
   */
  method DoWhileEintr(outcomes: seq<CallOutcome>) returns (result: int, errno: int, calls: nat)
    requires exists i :: 0 <= i < |outcomes| && !Interrupted(outcomes[i])
    ensures 1 <= calls <= |outcomes|
    ensures forall j :: 0 <= j < calls - 1 ==> Interrupted(outcomes[j])
    ensures !Interrupted(CallOutcome(result, errno))
    ensures CallOutcome(result, errno) == outcomes[calls - 1]
    ensures calls == FirstStop(outcomes) + 1
  {
    errno := EINTR;
    result := -1;
    calls := 0;
    while errno == EINTR && result == -1
      invariant calls <= FirstStop(outcomes) + 1
      invariant forall j :: 0 <= j < calls - 1 ==> Interrupted(outcomes[j])
      invariant calls > 0 ==> CallOutcome(result, errno) == outcomes[calls - 1]
      invariant calls == 0 ==> result == -1 && errno == EINTR
      decreases FirstStop(outcomes) + 1 - calls
    {
      result := outcomes[calls].result;
      errno := outcomes[calls].errno;
      calls := calls + 1;
    }
  }

  /** An `io_result`: the value a `read` or `write` returned. */
  datatype IoResult = IoResult(value: int)
  {
    /** `operation_would_have_blocked()`. */
    predicate WouldHaveBlocked() { value == -1 }

    /** `bytes_transferred()`: the value, or 0 when it is negative. */
    function BytesTransferred(): (n: nat)
      ensures value >= 0 ==> n == value
      ensures value < 0 ==> n == 0
    {
      if value < 0 then 0 else value
    }
  }

  /** The errors that mean "try again later". */
  predicate IsRetryError(err: int)
  {
    err == EAGAIN || err == EWOULDBLOCK
  }

  /**
   * The `io_result` constructor: a negative value with an error other than EAGAIN/EWOULDBLOCK
   * throws "I/O operation failed" with that error.
   */
  function MakeIoResult(value: int, err: int): (r: Result<IoResult, Error>)
    ensures r.Failure? <==> value < 0 && !IsRetryError(err)
    ensures r.Failure? ==> r.error == SystemError("I/O operation failed", err)
    ensures r.Success? ==> r.value.value == value
  {
    if value < 0 && err != EAGAIN && err != EWOULDBLOCK then Failure(SystemError("I/O operation failed", err))
    else Success(IoResult(value))
  }

  /**
   * A successful result reports would-block exactly for -1, and then no bytes; otherwise it reports
   * the bytes the call transferred.
   */
  lemma {:induction false} IoResultClassification(value: int, err: int)
    requires MakeIoResult(value, err).Success?
    ensures var r := MakeIoResult(value, err).value;
      && (r.WouldHaveBlocked() ==> r.BytesTransferred() == 0 && IsRetryError(err))
      && (value >= 0 ==> !r.WouldHaveBlocked() && r.BytesTransferred() == value)
  {
  }

  /**
   * `read`/`write` of src/os_services/io/io.hpp (and `read_while_eintr`/`write_while_eintr`): one
   * call retried while interrupted, its result wrapped with the `errno` left afterwards.
   * Reading at end of file (a call that returns 0) transfers 0 bytes and is not would-block.
   */
  method Transfer(outcomes: seq<CallOutcome>) returns (r: Result<IoResult, Error>)
    requires exists i :: 0 <= i < |outcomes| && !Interrupted(outcomes[i])
    ensures var last := outcomes[FirstStop(outcomes)];
      r == MakeIoResult(last.result, last.errno)
    ensures outcomes[FirstStop(outcomes)].result == 0 ==>
      r.Success? && !r.value.WouldHaveBlocked() && r.value.BytesTransferred() == 0
  {
    var result, errno, calls := DoWhileEintr(outcomes);
    r := MakeIoResult(result, errno);
  }

  // ---------------------------------------------------------------------------------------------
  // The older src/io/io.hpp

  /** What the older `read`/`write` return when they do not throw. */
  datatype Transferred<T> = Remaining(rest: seq<T>) | RetryLater

  /**
   * The older `read` and `write`, on one call with no EINTR retry: a result other than -1 gives
   * the part of the buffer from that index on; EAGAIN/EWOULDBLOCK gives `retry_tag`; anything else
   * throws `what` ("`read` failed" or "`write` failed") with the error.
   */
  function LegacyTransfer<T>(buffer: seq<T>, res: int, err: int, what: string): (r: Result<Transferred<T>, Error>)
    requires res == -1 || 0 <= res <= |buffer|
    ensures res != -1 ==> r == Success(Remaining(buffer[res..]))
    ensures res == -1 ==> (r == Success(RetryLater) <==> IsRetryError(err))
    ensures res == -1 && !IsRetryError(err) ==> r == Failure(SystemError(what, err))
  {
    if res != -1 then Success(Remaining(buffer[res..]))
    else if err == EAGAIN || err == EWOULDBLOCK then Success(RetryLater)
    else Failure(SystemError(what, err))
  }

  function LegacyRead<T>(buffer: seq<T>, res: int, err: int): (r: Result<Transferred<T>, Error>)
    requires res == -1 || 0 <= res <= |buffer|
    ensures res != -1 ==> r == Success(Remaining(buffer[res..]))
    ensures res == -1 && !IsRetryError(err) ==> r == Failure(SystemError("`read` failed", err))
  {
    LegacyTransfer(buffer, res, err, "`read` failed")
  }

  function LegacyWrite<T>(buffer: seq<T>, res: int, err: int): (r: Result<Transferred<T>, Error>)
    requires res == -1 || 0 <= res <= |buffer|
    ensures res != -1 ==> r == Success(Remaining(buffer[res..]))
    ensures res == -1 && !IsRetryError(err) ==> r == Failure(SystemError("`write` failed", err))
  {
    LegacyTransfer(buffer, res, err, "`write` failed")
  }

  /**
   * The remaining part and what was transferred make up the whole buffer, and the remaining part is
   * as much shorter than the buffer as the call transferred.
   */
  lemma {:induction false} LegacyTransferSplits<T>(buffer: seq<T>, res: int, err: int, what: string)
    requires 0 <= res <= |buffer|
    ensures var r := LegacyTransfer(buffer, res, err, what);
      r.Success? && r.value.Remaining? && buffer[..res] + r.value.rest == buffer
      && |r.value.rest| == |buffer| - res
  {
    assert buffer[..res] + buffer[res..] == buffer;
  }

  /**
   * On the same call outcome the newer helpers agree with the older ones: would-block is exactly
   * `retry_tag`, an exception is raised in the same cases, and the bytes transferred are what the
   * older suffix leaves out.
   */
  lemma {:induction false} NewerAgreesWithLegacy<T>(buffer: seq<T>, res: int, err: int, what: string)
    requires res == -1 || 0 <= res <= |buffer|
    ensures var newer := MakeIoResult(res, err);
      var older := LegacyTransfer(buffer, res, err, what);
      && (newer.Success? <==> older.Success?)
      && (newer.Success? ==> (newer.value.WouldHaveBlocked() <==> older.value.RetryLater?))
      && (newer.Success? && older.value.Remaining? ==>
            older.value.rest == buffer[newer.value.BytesTransferred()..])
  {
  }
}
