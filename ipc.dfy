/**
 * Pipes and socket pairs, src/os_services/ipc/pipe.hpp and src/os_services/ipc/socket_pair.hpp:
 * each holds two owned descriptors that can be borrowed, closed, or handed out.
 *
 * The `pipe`, `socketpair` and `fcntl` calls are not run; their outcomes are given.
 */
module Ipc {
  import opened Wrappers
  import opened Io
  import FD = FileDescriptors

  /** A `pipe`: the owned read end and the owned write end. */
  class Pipe {
    const readEnd: FD.FdOwner
    const writeEnd: FD.FdOwner

    /** The two ends are distinct owners, of an input and an output descriptor. */
    ghost predicate Valid()
      reads this, readEnd, writeEnd
    {
      && readEnd != writeEnd
      && readEnd.held.tag == FD.InputFd
      && writeEnd.held.tag == FD.OutputFd
    }

    /** Takes ownership of the two descriptors `pipe` returned. */
    constructor Owning(readFd: FD.Int32, writeFd: FD.Int32)
      ensures Valid() && fresh(readEnd) && fresh(writeEnd)
      ensures readEnd.held == FD.RefTo(FD.InputFd, readFd) && readEnd.deleterCalls == []
      ensures writeEnd.held == FD.RefTo(FD.OutputFd, writeFd) && writeEnd.deleterCalls == []
    {
      readEnd := new FD.FdOwner(FD.RefTo(FD.InputFd, readFd));
      writeEnd := new FD.FdOwner(FD.RefTo(FD.OutputFd, writeFd));
    }

    /** `read_end()`: the read end, ownership kept. */
    function ReadEnd(): (r: FD.FdRef)
      reads this, readEnd
      ensures r == readEnd.held
    {
      readEnd.Get()
    }

    /** `write_end()`: the write end, ownership kept. */
    function WriteEnd(): (r: FD.FdRef)
      reads this, writeEnd
      ensures r == writeEnd.held
    {
      writeEnd.Get()
    }

    /**
     * `close_read_end()`: `reset()` of the read end, as written. The end becomes null and its
     * descriptor is closed unless it is 0 (see `FD.ResetLeaksDescriptorZero`). The write end is
     * untouched.
     */
    method CloseReadEnd()
      requires Valid()
      modifies readEnd
      ensures Valid()
      ensures ReadEnd() == FD.NullRef(FD.InputFd)
      ensures readEnd.Closed() == old(readEnd.Closed()) + FD.ResetClosesAsWritten(old(ReadEnd()))
      ensures unchanged(writeEnd)
    {
      readEnd.ResetAsWritten();
    }

    /** `close_write_end()`: the mirror of `CloseReadEnd`. */
    method CloseWriteEnd()
      requires Valid()
      modifies writeEnd
      ensures Valid()
      ensures WriteEnd() == FD.NullRef(FD.OutputFd)
      ensures writeEnd.Closed() == old(writeEnd.Closed()) + FD.ResetClosesAsWritten(old(WriteEnd()))
      ensures unchanged(readEnd)
    {
      writeEnd.ResetAsWritten();
    }

    /**
     * `close_read_end_on_exec()`: marks the read end close-on-exec through `fcntl`, whose outcome
     * is `fcntl`. On failure it throws "Failed to set FD_CLOEXEC on pipe read end" before releasing,
     * so the pipe still owns the end. On success the handle is returned and the pipe stops owning
     * it without closing it.
     */
    method CloseReadEndOnExec(fcntl: CallOutcome) returns (r: Result<FD.FdRef, Error>)
      requires Valid()
      modifies readEnd
      ensures Valid() && unchanged(writeEnd)
      ensures r.Failure? <==> fcntl.result == -1
      ensures r.Failure? ==>
        && r.error == SystemError("Failed to set FD_CLOEXEC on pipe read end", fcntl.errno)
        && unchanged(readEnd)
      ensures r.Success? ==>
        && r.value == old(ReadEnd())
        && ReadEnd() == FD.NullRef(FD.InputFd)
        && readEnd.deleterCalls == old(readEnd.deleterCalls)
    {
      if fcntl.result == -1 {
        return Failure(SystemError("Failed to set FD_CLOEXEC on pipe read end", fcntl.errno));
      }
      var released := readEnd.Release();
      r := Success(released);
    }

    /** `close_write_end_on_exec()`: the mirror of `CloseReadEndOnExec`. */
    method CloseWriteEndOnExec(fcntl: CallOutcome) returns (r: Result<FD.FdRef, Error>)
      requires Valid()
      modifies writeEnd
      ensures Valid() && unchanged(readEnd)
      ensures r.Failure? <==> fcntl.result == -1
      ensures r.Failure? ==>
        && r.error == SystemError("Failed to set FD_CLOEXEC on pipe write end", fcntl.errno)
        && unchanged(writeEnd)
      ensures r.Success? ==>
        && r.value == old(WriteEnd())
        && WriteEnd() == FD.NullRef(FD.OutputFd)
        && writeEnd.deleterCalls == old(writeEnd.deleterCalls)
    {
      if fcntl.result == -1 {
        return Failure(SystemError("Failed to set FD_CLOEXEC on pipe write end", fcntl.errno));
      }
      var released := writeEnd.Release();
      r := Success(released);
    }
  }

  /**
   * The constructor of `pipe`: one `pipe` call with outcome `call`, returning `readFd` and
   * `writeFd` when it succeeds. A failure throws "Failed to create pipe" with its `errno`;
   * otherwise the pipe owns both ends, and both are valid.
   */
  method CreatePipe(call: CallOutcome, readFd: FD.Int32, writeFd: FD.Int32) returns (r: Result<Pipe, Error>)
    requires call.result != -1 ==> 0 <= readFd && 0 <= writeFd && readFd != writeFd
    ensures r.Failure? <==> call.result == -1
    ensures r.Failure? ==> r.error == SystemError("Failed to create pipe", call.errno)
    ensures r.Success? ==>
      && r.value.Valid() && fresh(r.value) && fresh(r.value.readEnd) && fresh(r.value.writeEnd)
      && r.value.ReadEnd().IsValid() && r.value.ReadEnd().NativeHandle() == readFd
      && r.value.WriteEnd().IsValid() && r.value.WriteEnd().NativeHandle() == writeFd
  {
    if call.result == -1 {
      return Failure(SystemError("Failed to create pipe", call.errno));
    }
    var p := new Pipe.Owning(readFd, writeFd);
    r := Success(p);
  }

  /** A `socket_pair`: two owned, connected sockets. */
  class SocketPair {
    const socketA: FD.FdOwner
    const socketB: FD.FdOwner

    ghost predicate Valid()
      reads this, socketA, socketB
    {
      && socketA != socketB
      && socketA.held.tag == FD.ConnectedSocket
      && socketB.held.tag == FD.ConnectedSocket
    }

    /** Takes ownership of the two sockets `socketpair` returned. */
    constructor Owning(fdA: FD.Int32, fdB: FD.Int32)
      ensures Valid() && fresh(socketA) && fresh(socketB)
      ensures socketA.held == FD.RefTo(FD.ConnectedSocket, fdA) && socketA.deleterCalls == []
      ensures socketB.held == FD.RefTo(FD.ConnectedSocket, fdB) && socketB.deleterCalls == []
    {
      socketA := new FD.FdOwner(FD.RefTo(FD.ConnectedSocket, fdA));
      socketB := new FD.FdOwner(FD.RefTo(FD.ConnectedSocket, fdB));
    }

    /** `socket_a()`: borrowed, ownership kept. */
    function SocketA(): (r: FD.FdRef)
      reads this, socketA
      ensures r == socketA.held
    {
      socketA.Get()
    }

    /** `socket_b()`: borrowed, ownership kept. */
    function SocketB(): (r: FD.FdRef)
      reads this, socketB
      ensures r == socketB.held
    {
      socketB.Get()
    }

    /**
     * `take_socket_a()`: ownership moves into a new owner, which is returned; the pair's `a` is
     * left empty and nothing is closed.
     */
    method TakeSocketA() returns (taken: FD.FdOwner)
      requires Valid()
      modifies socketA
      ensures Valid() && unchanged(socketB)
      ensures fresh(taken) && taken.held == old(SocketA()) && taken.deleterCalls == []
      ensures SocketA() == FD.NullRef(FD.ConnectedSocket) && socketA.deleterCalls == old(socketA.deleterCalls)
    {
      var r := socketA.Release();
      taken := new FD.FdOwner(r);
    }

    /** `take_socket_b()`: the mirror of `TakeSocketA`. */
    method TakeSocketB() returns (taken: FD.FdOwner)
      requires Valid()
      modifies socketB
      ensures Valid() && unchanged(socketA)
      ensures fresh(taken) && taken.held == old(SocketB()) && taken.deleterCalls == []
      ensures SocketB() == FD.NullRef(FD.ConnectedSocket) && socketB.deleterCalls == old(socketB.deleterCalls)
    {
      var r := socketB.Release();
      taken := new FD.FdOwner(r);
    }

    /** `close_socket_a()`: `reset()` of `a`, as written: `a` becomes empty and its descriptor is closed unless it is 0; `b` is untouched. */
    method CloseSocketA()
      requires Valid()
      modifies socketA
      ensures Valid() && unchanged(socketB)
      ensures SocketA() == FD.NullRef(FD.ConnectedSocket)
      ensures socketA.Closed() == old(socketA.Closed()) + FD.ResetClosesAsWritten(old(SocketA()))
    {
      socketA.ResetAsWritten();
    }

    /** `close_socket_b()`: the mirror of `CloseSocketA`. */
    method CloseSocketB()
      requires Valid()
      modifies socketB
      ensures Valid() && unchanged(socketA)
      ensures SocketB() == FD.NullRef(FD.ConnectedSocket)
      ensures socketB.Closed() == old(socketB.Closed()) + FD.ResetClosesAsWritten(old(SocketB()))
    {
      socketB.ResetAsWritten();
    }
  }

  /**
   * The constructor of `socket_pair`: one `socketpair(AF_UNIX, ...)` call with outcome `call`. A
   * failure throws "Failed to create a socket pair" with its `errno`; otherwise the pair owns both
   * sockets, and both are valid.
   */
  method CreateSocketPair(call: CallOutcome, fdA: FD.Int32, fdB: FD.Int32) returns (r: Result<SocketPair, Error>)
    requires call.result != -1 ==> 0 <= fdA && 0 <= fdB && fdA != fdB
    ensures r.Failure? <==> call.result == -1
    ensures r.Failure? ==> r.error == SystemError("Failed to create a socket pair", call.errno)
    ensures r.Success? ==>
      && r.value.Valid() && fresh(r.value) && fresh(r.value.socketA) && fresh(r.value.socketB)
      && r.value.SocketA().IsValid() && r.value.SocketA().NativeHandle() == fdA
      && r.value.SocketB().IsValid() && r.value.SocketB().NativeHandle() == fdB
  {
    if call.result == -1 {
      return Failure(SystemError("Failed to create a socket pair", call.errno));
    }
    var p := new SocketPair.Owning(fdA, fdB);
    r := Success(p);
  }
}

/**
 * `make_abstract_sockaddr_un`, identical in src/os_services/ipc/unix_domain_socket.hpp and
 * src/ipc/unix_domain_socket.hpp: an address in the Linux abstract socket namespace.
 */
module UnixDomainSocket {
  import opened Wrappers

  const AF_UNIX: nat := 1

  /** The size of `sockaddr_un::sun_path` on Linux. */
  const SunPathSize: nat := 108

  const Nul: char := '\0'

  /** A `sockaddr_un`: the address family and the path bytes. */
  datatype SockaddrUn = SockaddrUn(sunFamily: nat, sunPath: seq<char>)

  /**
   * `make_abstract_sockaddr_un`: a path of 106 bytes or more throws "Address to long". Otherwise
   * the address has family AF_UNIX and a `sun_path` that starts with NUL (the abstract namespace),
   * holds the path from offset 1, and is zero after it.
   */
  function MakeAbstractSockaddrUn(path: seq<char>): (r: Result<SockaddrUn, Error>)
    ensures r.Failure? <==> |path| >= SunPathSize - 2
    ensures r.Failure? ==> r.error == RuntimeError("Address to long")
    ensures r.Success? ==>
      && r.value.sunFamily == AF_UNIX
      && |r.value.sunPath| == SunPathSize
      && r.value.sunPath[0] == Nul
      && r.value.sunPath[1..1 + |path|] == path
      && (forall i :: 1 + |path| <= i < SunPathSize ==> r.value.sunPath[i] == Nul)
  {
    if |path| >= SunPathSize - 2 then Failure(RuntimeError("Address to long"))
    else Success(SockaddrUn(AF_UNIX, [Nul] + path + Zeros(SunPathSize - 1 - |path|)))
  }

  function Zeros(n: nat): (z: seq<char>)
    ensures |z| == n && forall i :: 0 <= i < n ==> z[i] == Nul
  {
    if n == 0 then [] else [Nul] + Zeros(n - 1)
  }

  /** The characters of `s` before its first NUL. */
  function UpToNul(s: seq<char>): (p: seq<char>)
    ensures |p| <= |s| && p == s[..|p|]
    ensures Nul !in p
    ensures |p| < |s| ==> s[|p|] == Nul
  {
    if |s| == 0 || s[0] == Nul then [] else [s[0]] + UpToNul(s[1..])
  }

  /** The name an abstract address carries: `sun_path` after the leading NUL, up to the next NUL. */
  function AbstractName(a: SockaddrUn): seq<char>
  {
    if |a.sunPath| == 0 then [] else UpToNul(a.sunPath[1..])
  }

  /**
   * A path without NUL bytes can be read back from the address built for it, so distinct such
   * paths give distinct addresses; at least one zero byte always follows the path.
   */
  lemma {:induction false} AbstractNameRoundTrip(path: seq<char>)
    requires |path| < SunPathSize - 2 && Nul !in path
    ensures AbstractName(MakeAbstractSockaddrUn(path).value) == path
  {
    var tail := MakeAbstractSockaddrUn(path).value.sunPath[1..];
    UpToNulPrefix(path, tail);
  }

  lemma {:induction false} UpToNulPrefix(path: seq<char>, s: seq<char>)
    requires Nul !in path && |path| < |s| && s[..|path|] == path && s[|path|] == Nul
    ensures UpToNul(s) == path
    decreases |path|
  {
    if |path| > 0 {
      assert s[0] == path[0] && path[0] != Nul;
      assert s[1..][..|path| - 1] == path[1..];
      UpToNulPrefix(path[1..], s[1..]);
      assert path == [path[0]] + path[1..];
    }
  }

  /** Two paths without NUL bytes that both fit build the same address only when they are equal. */
  lemma {:induction false} AbstractAddressInjective(p: seq<char>, q: seq<char>)
    requires |p| < SunPathSize - 2 && Nul !in p
    requires |q| < SunPathSize - 2 && Nul !in q
    requires MakeAbstractSockaddrUn(p) == MakeAbstractSockaddrUn(q)
    ensures p == q
  {
    AbstractNameRoundTrip(p);
    AbstractNameRoundTrip(q);
  }
}
