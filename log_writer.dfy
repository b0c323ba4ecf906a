/**
 * The non-blocking JSON log writer: the `writer` class of src/json_log_writer/writer.hpp, whose
 * `pump_data` and `flush` are also defined out of line in src/json_log_writer/writer.cpp. Log
 * items wait in a queue as JSON objects; when the output descriptor can take data, the front
 * object is serialized into one fixed buffer and the buffer is written out between a read and a
 * write cursor. The header's buffer holds 8 characters; the out-of-line revision's holds
 * `m_buffer_size`. Both are the constructor's `bufferSize` here.
 *
 * Two slips of the source are modelled as written and corrected, selected by `asWritten`:
 *  - `flush` tests for "no bytes transferred" before "would have blocked"; a write that would block
 *    transfers no bytes, so it is reported as a closed output and `output_is_blocked` is never
 *    returned;
 *  - after an object is completed, the serializer is reset and the loop goes on while objects
 *    remain, but never starts a serializer for the next one; serializing through the empty
 *    `std::optional` is undefined behaviour, which the model reports and stops at.
 */
module JsonLogWriter {
  import opened Wrappers
  import opened Io
  import opened Json
  import L = LogItem
  import opened Outputs
  import opened JoppSerializer
  import Activity

  /** The size of the header revision's buffer, `std::array<char, 8>`. */
  const FIXED_BUFFER_SIZE: nat := 8

  /** `writer::flush_result`. */
  datatype FlushResult = KeepGoing | OutputIsBlocked | OutputIsClosed

  /** The texts of the objects, one after the other. */
  function Texts(objects: seq<Object>, render: Object -> Rendering): seq<char>
  {
    if objects == [] then [] else render(objects[0]).text + Texts(objects[1..], render)
  }

  lemma {:induction false} TextsAppend(objects: seq<Object>, obj: Object, render: Object -> Rendering)
    ensures Texts(objects + [obj], render) == Texts(objects, render) + render(obj).text
    decreases |objects|
  {
    if objects == [] {
      assert objects + [obj] == [obj];
    } else {
      assert (objects + [obj])[1..] == objects[1..] + [obj];
      TextsAppend(objects[1..], obj, render);
    }
  }

  /**
   * What `flush` does after one `write`: stop with an exception, or with a closed or blocked
   * output, or go on (`None`). As written, "no bytes transferred" is tested before "would have
   * blocked"; corrected, after it.
   */
  function FlushStop(w: Result<IoResult, Error>, asWritten: bool): (stop: Option<Result<FlushResult, Error>>)
    ensures stop.None? <==> w.Success? && w.value.BytesTransferred() > 0
    ensures w.Failure? ==> stop == Some(Failure(w.error))
    ensures asWritten ==> stop != Some(Success(OutputIsBlocked))
  {
    match w
    case Failure(e) => Some(Failure(e))
    case Success(io) =>
      if asWritten && io.BytesTransferred() == 0 then Some(Success(OutputIsClosed))
      else if io.WouldHaveBlocked() then Some(Success(OutputIsBlocked))
      else if io.BytesTransferred() == 0 then Some(Success(OutputIsClosed))
      else None
  }

  /**
   * What `flush` does with `data`, the characters between the cursors, once the first `sent` of
   * them are sent: it writes until all are sent, a write transfers nothing, a write would block,
   * or a write throws. The result, how many characters the descriptor has taken in all, and the
   * descriptor afterwards.
   */
  function FlushFrom(data: seq<char>, sent: nat, out: Output, asWritten: bool): (Result<FlushResult, Error>, nat, Output)
    requires sent <= |data|
    decreases |data| - sent
  {
    if sent == |data| then (Success(KeepGoing), sent, out)
    else
      var w := WriteCall(out, data[sent..]);
      var stop := FlushStop(w.0, asWritten);
      if stop.Some? then (stop.value, sent, w.1)
      else FlushFrom(data, sent + w.0.value.BytesTransferred(), w.1, asWritten)
  }

  /** What one `flush` does with the characters between the cursors. */
  function FlushOutcome(data: seq<char>, out: Output, asWritten: bool): (Result<FlushResult, Error>, nat, Output)
  {
    FlushFrom(data, 0, out, asWritten)
  }

  /**
   * What a flush from `sent` on promises when it ends as `res`: the characters are sent in order
   * and it stops with a prefix of them sent; it returns `keep_going` exactly when all are sent; as
   * written it never returns `output_is_blocked`; an exception is a system error.
   */
  predicate FlushMeetsSpec(data: seq<char>, sent: nat, out: Output, asWritten: bool, res: (Result<FlushResult, Error>, nat, Output))
    requires sent <= |data|
  {
    && sent <= res.1 <= |data|
    && res.2.received == out.received + data[sent..res.1]
    && (res.0 == Success(KeepGoing) <==> res.1 == |data|)
    && (asWritten ==> res.0 != Success(OutputIsBlocked))
    && (res.0.Failure? ==> res.0.error.SystemError?)
  }

  /**
   * One `write` of the flush loop keeps the specification: if the write behaved as `write` does
   * and the rest of the loop meets the specification, so does the loop from `sent`.
   */
  lemma FlushPassMeetsSpec(data: seq<char>, sent: nat, out: Output, asWritten: bool, w: (Result<IoResult, Error>, Output),
                           next: (Result<FlushResult, Error>, nat, Output), res: (Result<FlushResult, Error>, nat, Output))
    requires sent < |data|
    requires w.0.Success? ==> w.0.value.BytesTransferred() <= |data| - sent
    requires w.0.Success? ==> w.1.received == out.received + data[sent..][..w.0.value.BytesTransferred()]
    requires w.0.Failure? ==> w.1.received == out.received && w.0.error.SystemError?
    requires FlushStop(w.0, asWritten).None? ==>
      FlushMeetsSpec(data, sent + w.0.value.BytesTransferred(), w.1, asWritten, next)
    requires res == if FlushStop(w.0, asWritten).Some? then (FlushStop(w.0, asWritten).value, sent, w.1) else next
    ensures FlushMeetsSpec(data, sent, out, asWritten, res)
  {
    if FlushStop(w.0, asWritten).None? {
      var n := w.0.value.BytesTransferred();
      assert data[sent..][..n] + data[sent + n..next.1] == data[sent..next.1];
    } else {
      assert data[sent..sent] == [];
    }
  }

  /** Every flush meets the specification, by induction on the writes it makes. */
  lemma {:induction false} FlushSendsPrefix(data: seq<char>, sent: nat, out: Output, asWritten: bool)
    requires sent <= |data|
    decreases |data| - sent
    ensures FlushMeetsSpec(data, sent, out, asWritten, FlushFrom(data, sent, out, asWritten))
  {
    if sent < |data| {
      var w := WriteCall(out, data[sent..]);
      var stop := FlushStop(w.0, asWritten);
      var next := if stop.None? then FlushFrom(data, sent + w.0.value.BytesTransferred(), w.1, asWritten)
                  else (Success(KeepGoing), sent, out);
      if stop.None? {
        FlushSendsPrefix(data, sent + w.0.value.BytesTransferred(), w.1, asWritten);
      }
      FlushPassMeetsSpec(data, sent, out, asWritten, w, next, FlushFrom(data, sent, out, asWritten));
    }
  }

  /**
   * What a whole flush leaves: with `keep_going` all of `data` was sent; when it stops on a closed
   * or blocked output, what was sent followed by what was not is `data`.
   */
  lemma FlushLeaves(data: seq<char>, out: Output, asWritten: bool, res: (Result<FlushResult, Error>, nat, Output))
    requires FlushMeetsSpec(data, 0, out, asWritten, res)
    ensures res.0 == Success(KeepGoing) ==> res.2.received == out.received + data
    ensures res.0.Success? && res.0 != Success(KeepGoing) ==> res.2.received + data[res.1..] == out.received + data
  {
    assert data[0..res.1] + data[res.1..] == data;
    assert data[0..|data|] == data;
  }

  /**
   * A write that would block: as written, `flush` reports the output as closed; corrected, as
   * blocked. Nothing is sent either way.
   */
  lemma {:induction false} WouldBlockReportedAsClosed(data: seq<char>, out: Output, asWritten: bool)
    requires data != [] && out.replies != [] && out.replies[0] == CallOutcome(-1, EAGAIN)
    ensures FlushOutcome(data, out, asWritten).1 == 0
    ensures FlushOutcome(data, out, asWritten).2.received == out.received
    ensures asWritten ==> FlushOutcome(data, out, asWritten).0 == Success(OutputIsClosed)
    ensures !asWritten ==> FlushOutcome(data, out, asWritten).0 == Success(OutputIsBlocked)
  {
    assert !Interrupted(out.replies[0]);
    assert MakeIoResult(-1, EAGAIN) == Success(IoResult(-1));
  }

  /** Corrected, a flush reports a closed output only when a write returned 0, never for a write that would block. */
  lemma {:induction false} ClosedOnlyOnZeroWrite(data: seq<char>, out: Output)
    requires data != [] && out.replies != [] && !Interrupted(out.replies[0]) && out.replies[0].result == 0
    ensures FlushOutcome(data, out, false).0 == Success(OutputIsClosed)
    ensures FlushOutcome(data, out, false).1 == 0
    ensures FlushOutcome(data, out, false).2.received == out.received
  {
  }

  /**
   * The text of a queue not yet serialized, the serializer having written `serializer.value`
   * characters of the front object's text if it is in progress.
   */
  function UnserializedText(objects: seq<Object>, serializer: Option<nat>, render: Object -> Rendering): seq<char>
    requires serializer.Some? ==> |objects| > 0 && serializer.value <= |render(objects[0]).text|
  {
    if serializer.Some? then render(objects[0]).text[serializer.value..] + Texts(objects[1..], render)
    else Texts(objects, render)
  }

  /** Everything still to be sent: the characters `buffered` between the cursors, then the unserialized text. */
  function PendingText(buffered: seq<char>, objects: seq<Object>, serializer: Option<nat>, render: Object -> Rendering): seq<char>
    requires serializer.Some? ==> |objects| > 0 && serializer.value <= |render(objects[0]).text|
  {
    buffered + UnserializedText(objects, serializer, render)
  }

  /**
   * Serializing the next `k` characters of the front object moves them from the unserialized text
   * to the end of the buffered characters: what is still to be sent stays the same.
   */
  lemma SerializingKeepsPending(buffered: seq<char>, before: seq<char>, objects: seq<Object>, done: nat, k: nat, render: Object -> Rendering)
    requires |objects| > 0 && done + k <= |render(objects[0]).text|
    requires buffered == before + render(objects[0]).text[done..done + k]
    ensures PendingText(before, objects, Some(done), render) == PendingText(buffered, objects, Some(done + k), render)
  {
    var text := render(objects[0]).text;
    var rest := Texts(objects[1..], render);
    assert text[done..] == text[done..done + k] + text[done + k..];
    assert before + (text[done..] + rest) == (before + text[done..done + k]) + (text[done + k..] + rest);
  }

  /** Starting a serializer on the front object changes nothing still to be sent. */
  lemma StartingKeepsPending(buffered: seq<char>, objects: seq<Object>, render: Object -> Rendering)
    requires |objects| > 0
    ensures PendingText(buffered, objects, None, render) == PendingText(buffered, objects, Some(0), render)
  {
    assert render(objects[0]).text[0..] == render(objects[0]).text;
  }

  /** Dropping the front object once all its text is serialized changes nothing still to be sent. */
  lemma CompletingKeepsPending(buffered: seq<char>, objects: seq<Object>, render: Object -> Rendering)
    requires |objects| > 0
    ensures PendingText(buffered, objects, Some(|render(objects[0]).text|), render)
      == PendingText(buffered, objects[1..], None, render)
  {
    assert render(objects[0]).text[|render(objects[0]).text|..] == [];
  }

  /**
   * When `sent` followed by `left` is what was sent before followed by `between`, then `sent`
   * followed by `left` and `rest` is what was sent before followed by `between` and `rest`.
   */
  lemma SendingKeepsTotal(before: seq<char>, between: seq<char>, rest: seq<char>, sent: seq<char>, left: seq<char>)
    requires sent + left == before + between
    ensures sent + (left + rest) == before + (between + rest)
  {
    calc {
      sent + (left + rest);
      (sent + left) + rest;
      (before + between) + rest;
      before + (between + rest);
    }
  }

  class Writer {
    /** What the serializer writes for each object. */
    const render: Object -> Rendering
    /** `m_output_buffer`. */
    const buffer: array<char>
    /** `m_objects_to_write`, front first. */
    var objects: seq<Object>
    /** `m_current_serializer`: how much of the front object's text it has written, if one is in progress. */
    var serializer: Option<nat>
    /** `m_output_write_ptr` and `m_output_read_ptr`, as offsets from the start of the buffer. */
    var writePtr: nat
    var readPtr: nat

    /** The cursors stay in the buffer with the read cursor first; a serializer works on the front object. */
    ghost predicate Valid()
      reads this
    {
      && buffer.Length > 0
      && readPtr <= writePtr <= buffer.Length
      && (serializer.Some? ==> |objects| > 0 && serializer.value <= |render(objects[0]).text|)
    }

    /** The text not yet serialized: the rest of the front object's if it is in progress, then the others'. */
    ghost function Unserialized(): seq<char>
      reads this
      requires Valid()
    {
      UnserializedText(objects, serializer, render)
    }

    /** Everything still to be sent, in order: the characters between the cursors, then the unserialized text. */
    ghost function Pending(): seq<char>
      reads this, buffer
      requires Valid()
    {
      PendingText(buffer[readPtr..writePtr], objects, serializer, render)
    }

    /** `writer()` with a buffer of `bufferSize` characters (8 in the header revision); nothing is queued. */
    constructor(bufferSize: nat, render: Object -> Rendering)
      requires bufferSize > 0
      ensures Valid() && fresh(buffer) && buffer.Length == bufferSize && this.render == render
      ensures objects == [] && serializer.None? && readPtr == 0 && writePtr == 0
      ensures Pending() == []
    {
      this.render := render;
      buffer := new char[bufferSize];
      objects := [];
      serializer := None;
      writePtr := 0;
      readPtr := 0;
    }

    /** `write(item)`: the item's object joins the back of the queue; nothing is written. */
    method Write(item: L.Item)
      requires Valid()
      modifies this
      ensures Valid()
      ensures objects == old(objects) + [L.ToJoppObject(item)]
      ensures serializer == old(serializer) && readPtr == old(readPtr) && writePtr == old(writePtr)
      ensures Pending() == old(Pending()) + render(L.ToJoppObject(item)).text
    {
      var obj := L.ToJoppObject(item);
      TextsAppend(objects, obj, render);
      if serializer.Some? {
        TextsAppend(objects[1..], obj, render);
        assert (objects + [obj])[1..] == objects[1..] + [obj];
      }
      objects := objects + [obj];
    }

    /**
     * `flush(fd)`: writes the characters between the cursors. When all are sent the read cursor
     * returns to the start of the buffer; when the output is closed or blocked, it is left after
     * the characters sent; when a write throws, it is left where it was.
     */
    method Flush(out0: Output, asWritten: bool) returns (r: Result<FlushResult, Error>, out: Output)
      requires Valid()
      modifies this
      ensures Valid()
      ensures objects == old(objects) && serializer == old(serializer) && writePtr == old(writePtr)
      ensures var res := FlushOutcome(old(buffer[readPtr..writePtr]), out0, asWritten);
        && r == res.0 && out == res.2
        && readPtr == (if r == Success(KeepGoing) then 0 else if r.Success? then old(readPtr) + res.1 else old(readPtr))
      ensures r == Success(KeepGoing) ==> out.received == out0.received + old(buffer[readPtr..writePtr])
      ensures r.Success? && r != Success(KeepGoing) ==>
        out.received + buffer[readPtr..writePtr] == out0.received + old(buffer[readPtr..writePtr])
      ensures r.Failure? ==> r.error.SystemError?
    {
      var data := buffer[readPtr..writePtr];
      var sent;
      r, sent, out := WriteOut(data, out0, asWritten);
      FlushSendsPrefix(data, 0, out0, asWritten);
      FlushLeaves(data, out0, asWritten, (r, sent, out));
      if r == Success(KeepGoing) {
        readPtr := 0;
      } else if r.Success? {
        assert buffer[readPtr + sent..writePtr] == data[sent..];
        readPtr := readPtr + sent;
      }
    }

    /** Starts a serializer on the front object; nothing is serialized yet. */
    method StartSerializer()
      requires Valid() && serializer.None? && objects != []
      modifies this
      ensures Valid()
      ensures serializer == Some(0)
      ensures objects == old(objects) && readPtr == old(readPtr) && writePtr == old(writePtr)
      ensures Pending() == old(Pending())
    {
      StartingKeepsPending(buffer[readPtr..writePtr], objects, render);
      serializer := Some(0);
    }

    /**
     * One `serialize` call of the serializer in progress, into the room between the write cursor
     * and the end of the buffer: the characters it writes move from the unserialized text to the
     * buffer, and the write cursor moves past them.
     */
    method SerializeInto() returns (code: Code)
      requires Valid() && serializer.Some?
      modifies this, buffer
      ensures Valid()
      ensures objects == old(objects) && readPtr == old(readPtr)
      ensures var res := Serialize(render(objects[0]), old(serializer.value), buffer.Length - old(writePtr));
        && code == res.0 && writePtr == old(writePtr) + res.1 && serializer == Some(old(serializer.value) + res.1)
      ensures Pending() == old(Pending())
    {
      var text := render(objects[0]).text;
      var done := serializer.value;
      var res := Serialize(render(objects[0]), done, buffer.Length - writePtr);
      var k := res.1;
      ghost var before := buffer[readPtr..writePtr];
      assert Pending() == PendingText(before, objects, Some(done), render);
      var at := writePtr;
      writePtr := writePtr + k;
      serializer := Some(done + k);
      code := res.0;
      assert buffer[readPtr..at] == before;
      CopyInto(buffer, readPtr, at, text[done..done + k]);
      SerializingKeepsPending(buffer[readPtr..writePtr], before, objects, done, k, render);
    }

    /** Puts `s` into `a` from index `at` on; the characters from `from` up to `at` stay. */
    static method CopyInto(a: array<char>, from: nat, at: nat, s: seq<char>)
      requires from <= at && at + |s| <= a.Length
      modifies a
      ensures a[from..at + |s|] == old(a[from..at]) + s
    {
      ghost var kept := a[from..at];
      forall i | 0 <= i < |s| {
        a[at + i] := s[i];
      }
      assert a[from..at + |s|] == kept + s by {
        assert forall i :: from <= i < at ==> a[i] == kept[i - from];
      }
    }

    /** After `completed`: the serializer is reset and the front object leaves the queue. */
    method CompleteFront()
      requires Valid() && serializer.Some? && serializer.value == |render(objects[0]).text|
      modifies this
      ensures Valid()
      ensures serializer.None? && objects == old(objects)[1..]
      ensures readPtr == old(readPtr) && writePtr == old(writePtr)
      ensures Pending() == old(Pending())
    {
      CompletingKeepsPending(buffer[readPtr..writePtr], objects, render);
      serializer := None;
      objects := objects[1..];
    }

    /** Flushes, and when everything was sent starts writing at the start of the buffer again. */
    method FlushAndRewind(out0: Output, asWritten: bool) returns (f: Result<FlushResult, Error>, out: Output)
      requires Valid()
      modifies this
      ensures Valid()
      ensures objects == old(objects) && serializer == old(serializer)
      ensures f.Success? ==> out.received + Pending() == out0.received + old(Pending())
      ensures f == Success(KeepGoing) ==> readPtr == 0 && writePtr == 0
      ensures f.Failure? ==> f.error.SystemError?
    {
      ghost var unserialized := Unserialized();
      ghost var between := buffer[readPtr..writePtr];
      ghost var sentBefore := out0.received;
      f, out := Flush(out0, asWritten);
      ghost var left := buffer[readPtr..writePtr];
      assert Unserialized() == unserialized;
      if f == Success(KeepGoing) {
        writePtr := 0;
        assert buffer[readPtr..writePtr] == [];
        SendingKeepsTotal(sentBefore, between, unserialized, out.received, []);
      } else if f.Success? {
        SendingKeepsTotal(sentBefore, between, unserialized, out.received, left);
      }
    }

    /**
     * `pump_data(fd)`. With no serializer in progress and nothing queued it does nothing. Otherwise
     * it serializes the front object into the buffer, flushing whenever the buffer is full and
     * after each object, until the queue is empty, a flush stops (closed or blocked output), a
     * write throws, or the serializer refuses a string ("Invalid jopp object"). Objects leave the
     * queue from the front; what a flush sends plus what is still pending is what was pending.
     *
     * As written (`asWritten`), after one object is completed with others queued, the loop
     * serializes through the reset serializer (`undefined`), so at most one object leaves the
     * queue per call and `keep_going` comes only once the queue is empty. Corrected, a serializer
     * is started on the next object.
     */
    method PumpData(out0: Output, asWritten: bool) returns (r: Result<FlushResult, Error>, out: Output, undefined: bool)
      requires Valid()
      modifies this, buffer
      ensures Valid()
      ensures |objects| <= old(|objects|) && objects == old(objects)[old(|objects|) - |objects|..]
      ensures !undefined && r.Success? ==> out.received + Pending() == out0.received + old(Pending())
      ensures !undefined && r == Success(KeepGoing) ==> objects == [] && serializer.None?
      ensures !undefined && r == Success(KeepGoing) && old(objects) != [] ==> Pending() == []
      ensures old(serializer).None? && old(objects) == [] ==>
        !undefined && r == Success(KeepGoing) && out == out0 && Pending() == old(Pending())
      ensures !undefined && r.Failure? && r.error.RuntimeError? ==>
        r.error == RuntimeError("Invalid jopp object") && objects != [] && !render(objects[0]).legal
      ensures undefined ==> asWritten && serializer.None? && objects != [] && |objects| + 1 == old(|objects|)
      ensures asWritten ==> |objects| + 1 >= old(|objects|)
    {
      out := out0;
      undefined := false;
      r := Success(KeepGoing);
      if serializer.None? {
        if objects == [] {
          return;
        }
        StartSerializer();
      }
      r, out, undefined := PumpLoop(out0, asWritten);
    }

    /**
     * The loop of `pump_data`, a serializer being in progress: one PumpOnce after another until
     * the queue is empty or a pass stops.
     */
    method PumpLoop(out0: Output, asWritten: bool) returns (r: Result<FlushResult, Error>, out: Output, undefined: bool)
      requires Valid() && serializer.Some?
      modifies this, buffer
      ensures Valid()
      ensures |objects| <= old(|objects|) && objects == old(objects)[old(|objects|) - |objects|..]
      ensures !undefined && r.Success? ==> out.received + Pending() == out0.received + old(Pending())
      ensures !undefined && r == Success(KeepGoing) ==> objects == [] && serializer.None? && Pending() == []
      ensures !undefined && r.Failure? && r.error.RuntimeError? ==>
        r.error == RuntimeError("Invalid jopp object") && objects != [] && !render(objects[0]).legal
      ensures undefined ==> asWritten && serializer.None? && objects != [] && |objects| + 1 == old(|objects|)
      ensures asWritten ==> |objects| + 1 >= old(|objects|)
    {
      out := out0;
      undefined := false;
      r := Success(KeepGoing);
      ghost var queued := objects;
      ghost var dropped: nat := 0;
      while objects != []
        invariant Valid()
        invariant out.received + Pending() == out0.received + old(Pending())
        invariant queued == old(objects)
        invariant dropped <= |queued| && objects == queued[dropped..] && |objects| == |queued| - dropped
        invariant objects == [] ==> readPtr == writePtr
        invariant asWritten ==> dropped <= 1 && (serializer.Some? <==> dropped == 0)
        decreases |Unserialized()| + |objects|, if writePtr == buffer.Length then 1 else 0
      {
        var stop;
        ghost var before := objects;
        stop, out, undefined := PumpOnce(out, asWritten);
        if undefined {
          return;
        }
        if stop.Some? {
          return stop.value, out, false;
        }
        if objects != before {
          assert objects == queued[dropped + 1..];
          dropped := dropped + 1;
        }
      }
    }

    /**
     * `handle_event(event, fd)`: pumps only when the event allows writing (`pumped` is what
     * `pump_data` returned), and asks to stop listening (`r` holding true) exactly when the pump
     * reports the output closed. An exception of the pump propagates.
     */
    method HandleEvent(status: Activity.ActivityStatus, out0: Output, asWritten: bool)
      returns (r: Result<bool, Error>, pumped: Option<Result<FlushResult, Error>>, out: Output, undefined: bool)
      requires Valid()
      modifies this, buffer
      ensures Valid()
      ensures pumped.None? <==> !Activity.CanWrite(status)
      ensures !Activity.CanWrite(status) ==>
        r == Success(false) && out == out0 && !undefined && unchanged(this) && unchanged(buffer)
      ensures pumped.Some? && pumped.value.Failure? ==> r == Failure(pumped.value.error)
      ensures r == Success(true) <==> pumped == Some(Success(OutputIsClosed))
      ensures Activity.CanWrite(status) && !undefined && r.Success? ==>
        out.received + Pending() == out0.received + old(Pending())
      ensures |objects| <= old(|objects|) && objects == old(objects)[old(|objects|) - |objects|..]
    {
      out := out0;
      undefined := false;
      r := Success(false);
      pumped := None;
      if Activity.CanWrite(status) {
        var p;
        p, out, undefined := PumpData(out0, asWritten);
        pumped := Some(p);
        if p.Failure? {
          r := Failure(p.error);
        } else {
          r := Success(p.value == OutputIsClosed);
        }
      }
    }

    /**
     * One pass of the loop of `pump_data`, the queue not being empty: serializes into the room left
     * in the buffer (first starting a serializer on the front object if there is none; as written,
     * that is the undefined serialize through the empty `std::optional`, and nothing happens), drops
     * the front object once it is completed, and flushes. It goes on (`None`) only when everything
     * was sent, with both cursors back at the start of the buffer and less left to do.
     */
    method PumpOnce(out0: Output, asWritten: bool) returns (stop: Option<Result<FlushResult, Error>>, out: Output, undefined: bool)
      requires Valid() && objects != []
      modifies this, buffer
      ensures Valid()
      ensures objects == old(objects) || objects == old(objects)[1..]
      ensures undefined <==> asWritten && old(serializer).None?
      ensures undefined ==> objects == old(objects) && serializer.None?
      ensures |Unserialized()| + |objects| <= old(|Unserialized()| + |objects|)
      ensures !undefined && (stop.None? || stop.value.Success?) ==> out.received + Pending() == out0.received + old(Pending())
      ensures stop.None? && !undefined ==>
        && readPtr == 0 && writePtr == 0
        && (|Unserialized()| + |objects| < old(|Unserialized()| + |objects|) || old(writePtr) == buffer.Length)
      ensures stop.Some? ==> !undefined && stop.value != Success(KeepGoing)
      ensures stop.Some? && stop.value.Failure? && stop.value.error.RuntimeError? ==>
        stop.value.error == RuntimeError("Invalid jopp object") && objects != [] && !render(objects[0]).legal
      ensures asWritten && old(serializer).Some? ==>
        (serializer.Some? ==> objects == old(objects)) && (serializer.None? ==> objects == old(objects)[1..])
    {
      out := out0;
      undefined := false;
      stop := None;
      if serializer.None? {
        if asWritten {
          undefined := true;
          return;
        }
        StartSerializer();
      }
      ghost var start := |Unserialized()| + |objects|;
      var code := SerializeInto();
      if code == IllegalCharInString {
        stop := Some(Failure(RuntimeError("Invalid jopp object")));
        return;
      }
      if code == Completed {
        CompleteFront();
      }
      assert code == BufferIsFull ==> |Unserialized()| + |objects| < start || old(writePtr) == buffer.Length;
      var f;
      f, out := FlushAndRewind(out, asWritten);
      if f != Success(KeepGoing) {
        stop := Some(f);
      }
    }

    /**
     * The loop of `flush`: writes `data` from its local read cursor on, which advances by the
     * bytes each `write` transfers, until a write stops it or nothing is left.
     */
    static method WriteOut(data: seq<char>, out0: Output, asWritten: bool)
      returns (r: Result<FlushResult, Error>, sent: nat, out: Output)
      ensures (r, sent, out) == FlushOutcome(data, out0, asWritten)
    {
      sent := 0;
      out := out0;
      while sent != |data|
        invariant sent <= |data|
        invariant FlushOutcome(data, out0, asWritten) == FlushFrom(data, sent, out, asWritten)
        decreases |data| - sent
      {
        var w;
        w, out := WriteCall(out, data[sent..]).0, WriteCall(out, data[sent..]).1;
        var stop := FlushStop(w, asWritten);
        if stop.Some? {
          return stop.value, sent, out;
        }
        sent := sent + w.value.BytesTransferred();
      }
      r := Success(KeepGoing);
    }
  }
}
