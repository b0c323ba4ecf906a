/**
 * What the writers see of the descriptors they write to, and of the jopp serializer they write
 * with. Neither is code of this repository: their behaviour is given as data.
 */
module Outputs {
  import opened Wrappers
  import opened Io

  /**
   * A descriptor being written to: the bytes it has received so far, and how it answers the next
   * `write` calls (the call's return value and `errno`). Once the given answers run out, it accepts
   * everything it is given.
   */
  datatype Output = Output(received: seq<char>, replies: seq<CallOutcome>)

  /**
   * `os_services::io::write(fd, data)`: interrupted answers are retried, as `do_while_eintr` does;
   * the first other answer becomes the `io_result`, or the exception. A descriptor never takes more
   * than it is given, so a larger count is cut to the length of `data`.
   */
  function WriteCall(out: Output, data: seq<char>): (res: (Result<IoResult, Error>, Output))
    decreases |out.replies|
    ensures res.0.Success? ==> res.0.value.BytesTransferred() <= |data|
    ensures res.0.Success? ==> res.1.received == out.received + data[..res.0.value.BytesTransferred()]
    ensures res.0.Failure? ==> res.1.received == out.received && res.0.error.SystemError?
    ensures out.replies == [] ==> res == (Success(IoResult(|data|)), out.(received := out.received + data))
    ensures out.replies != [] ==> |res.1.replies| < |out.replies|
  {
    if out.replies == [] then
      assert data[..|data|] == data;
      (Success(IoResult(|data|)), out.(received := out.received + data))
    else
      var reply, rest := out.replies[0], out.replies[1..];
      if Interrupted(reply) then WriteCall(out.(replies := rest), data)
      else
        match MakeIoResult(if reply.result > |data| then |data| else reply.result, reply.errno)
        case Failure(e) => (Failure(e), out.(replies := rest))
        case Success(io) => (Success(io), Output(out.received + data[..io.BytesTransferred()], rest))
  }
}

/**
 * The jopp serializer seen from outside: an object is written out as a fixed text, a piece at a
 * time, into whatever room the caller offers.
 */
module JoppSerializer {

  /**
   * What serializing one object produces: its text, and whether the serializer accepts every
   * string in it. For an object it refuses, `text` is what it writes before it stops.
   */
  datatype Rendering = Rendering(text: seq<char>, legal: bool)

  /** `serializer_error_code`. */
  datatype Code = BufferIsFull | Completed | IllegalCharInString

  /**
   * One `serialize(span)` call, `done` characters of the text having been written before, into a
   * span with room for `room` characters: it fills the span while more text remains, and otherwise
   * writes the rest and reports the end, or the refused string.
   */
  function Serialize(r: Rendering, done: nat, room: nat): (res: (Code, nat))
    requires done <= |r.text|
    ensures res.1 <= room && done + res.1 <= |r.text|
    ensures res.0 == BufferIsFull <==> |r.text| - done > room
    ensures res.0 == BufferIsFull ==> res.1 == room
    ensures res.0 != BufferIsFull ==> done + res.1 == |r.text| && (res.0 == Completed <==> r.legal)
  {
    if |r.text| - done > room then (BufferIsFull, room)
    else if r.legal then (Completed, |r.text| - done)
    else (IllegalCharInString, |r.text| - done)
  }
}
