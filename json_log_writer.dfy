/**
 * The blocking JSON log writer of src/json_log/writer.hpp and src/json_log/writer.cpp: `write`
 * serializes one log item a buffer-full at a time, always into the whole buffer, and writes each
 * chunk out completely before serializing the next.
 *
 * The loop takes for granted that writing never blocks: a write that transfers nothing is simply
 * tried again. The descriptor model gives every write an answer from a finite list and accepts
 * everything once the list is used up, so the retries end.
 */
module JsonLog {
  import opened Wrappers
  import opened Io
  import opened Json
  import L = LogItem
  import opened Outputs
  import opened JoppSerializer

  /** The defaults of the constructor: a 65536-byte buffer, writing to standard error. */
  const DEFAULT_BUFFER_SIZE: nat := 65536
  const STDERR_FILENO: int := 2

  /**
   * How a `write` ends: it returns after the last chunk of a completed object; a write throws;
   * or the serializer refuses a string in the object. After a refusal the source loops on,
   * calling `serialize` again, and what it does then is up to jopp; the model stops there.
   */
  datatype WriteOutcome = Written | Failed(error: Error) | Refused

  /**
   * The inner loop of `write`: writes `data` until all of it is taken, each call going on from
   * where the previous one stopped. A throwing write ends it.
   */
  function Drain(data: seq<char>, out: Output): (res: (Option<Error>, Output))
    decreases |out.replies|, |data|
  {
    if data == [] then (None, out)
    else
      var w := WriteCall(out, data);
      if w.0.Failure? then (Some(w.0.error), w.1)
      else Drain(data[w.0.value.BytesTransferred()..], w.1)
  }

  /** `after` is `before` followed by a prefix of `data`. */
  predicate SentPrefix(before: seq<char>, after: seq<char>, data: seq<char>)
  {
    |before| <= |after| <= |before| + |data| && after == before + data[..|after| - |before|]
  }

  /**
   * What draining `data` promises when it ends as `res`: all of it sent, or, when a write throws a
   * system error, a prefix of it.
   */
  predicate DrainMeetsSpec(data: seq<char>, out: Output, res: (Option<Error>, Output))
  {
    && (res.0.None? ==> res.1.received == out.received + data)
    && (res.0.Some? ==> res.0.value.SystemError? && SentPrefix(out.received, res.1.received, data))
  }

  /**
   * One write of the inner loop keeps the specification: a throwing write sent nothing, and a
   * write that took `n` characters followed by a drain of the rest meeting the specification
   * meets it for the whole.
   */
  lemma DrainPassMeetsSpec(data: seq<char>, out: Output, w: (Result<IoResult, Error>, Output),
                           next: (Option<Error>, Output), res: (Option<Error>, Output))
    requires w.0.Success? ==> w.0.value.BytesTransferred() <= |data|
    requires w.0.Success? ==> w.1.received == out.received + data[..w.0.value.BytesTransferred()]
    requires w.0.Failure? ==> w.1.received == out.received && w.0.error.SystemError?
    requires w.0.Success? ==> DrainMeetsSpec(data[w.0.value.BytesTransferred()..], w.1, next)
    requires res == if w.0.Failure? then (Some(w.0.error), w.1) else next
    ensures DrainMeetsSpec(data, out, res)
  {
    if w.0.Success? {
      var n := w.0.value.BytesTransferred();
      var rest := data[n..];
      assert data[..n] + rest == data;
      if res.0.Some? {
        var m := |res.1.received| - |w.1.received|;
        assert data[..n] + rest[..m] == data[..n + m];
      }
    } else {
      assert data[..0] == [];
    }
  }

  /**
   * Draining sends the data in order: all of it, or, when a write throws a system error, a
   * prefix of it.
   */
  lemma {:induction false} DrainSendsInOrder(data: seq<char>, out: Output)
    decreases |out.replies|, |data|
    ensures DrainMeetsSpec(data, out, Drain(data, out))
  {
    if data != [] {
      var w := WriteCall(out, data);
      var next := if w.0.Success? then Drain(data[w.0.value.BytesTransferred()..], w.1) else (None, out);
      if w.0.Success? {
        DrainSendsInOrder(data[w.0.value.BytesTransferred()..], w.1);
      }
      DrainPassMeetsSpec(data, out, w, next, Drain(data, out));
    }
  }

  /**
   * The outer loop of `write`, `done` characters of the object's text having been serialized:
   * one `serialize` call into the whole buffer of `size` characters, the chunk it produced
   * drained, then the loop ends on `completed` or goes on.
   */
  function WriteFrom(r: Rendering, done: nat, size: nat, out: Output): (WriteOutcome, Output)
    requires done <= |r.text| && size > 0
    decreases |r.text| - done
  {
    var s := Serialize(r, done, size);
    var d := Drain(r.text[done..done + s.1], out);
    if d.0.Some? then (Failed(d.0.value), d.1)
    else if s.0 == Completed then (Written, d.1)
    else if s.0 == IllegalCharInString then (Refused, d.1)
    else WriteFrom(r, done + s.1, size, d.1)
  }

  /**
   * What a `write` from `done` on has achieved when it ends as `w`: a return sends the rest of a
   * legal object's text in order, a refusal the rest of an illegal one's, and a throwing write
   * is a system error after a prefix of it.
   */
  predicate WriteMeetsSpec(r: Rendering, done: nat, out: Output, w: (WriteOutcome, Output))
    requires done <= |r.text|
  {
    && (w.0 == Written ==> r.legal && w.1.received == out.received + r.text[done..])
    && (w.0 == Refused ==> !r.legal && w.1.received == out.received + r.text[done..])
    && (w.0.Failed? ==> w.0.error.SystemError? && SentPrefix(out.received, w.1.received, r.text[done..]))
  }

  /**
   * One pass keeps the specification: if the chunk `text[done..done + k]` was drained as draining
   * promises, and what follows meets the specification from `done + k`, the pass meets it from
   * `done`.
   */
  lemma PassMeetsSpec(r: Rendering, done: nat, k: nat, code: Code, out: Output, d: (Option<Error>, Output),
                      next: (WriteOutcome, Output), w: (WriteOutcome, Output))
    requires done + k <= |r.text|
    requires code != BufferIsFull ==> done + k == |r.text| && (code == Completed <==> r.legal)
    requires DrainMeetsSpec(r.text[done..done + k], out, d)
    requires code == BufferIsFull ==> WriteMeetsSpec(r, done + k, d.1, next)
    requires w == if d.0.Some? then (Failed(d.0.value), d.1)
                  else if code == Completed then (Written, d.1)
                  else if code == IllegalCharInString then (Refused, d.1)
                  else next
    ensures WriteMeetsSpec(r, done, out, w)
  {
    var chunk, rest := r.text[done..done + k], r.text[done + k..];
    assert r.text[done..] == chunk + rest;
    if d.0.Some? {
      SentPrefixWithin(out.received, d.1.received, chunk, r.text[done..]);
    } else if code == BufferIsFull {
      assert d.1.received + rest == out.received + (chunk + rest);
      if next.0.Failed? {
        SentPrefixAfter(out.received, chunk, d.1.received, next.1.received, rest);
      }
    }
  }

  /** Every `write` meets the specification, by induction on the passes of the outer loop. */
  lemma {:induction false} WriteFromMeetsSpec(r: Rendering, done: nat, size: nat, out: Output)
    requires done <= |r.text| && size > 0
    decreases |r.text| - done
    ensures WriteMeetsSpec(r, done, out, WriteFrom(r, done, size, out))
  {
    var s := Serialize(r, done, size);
    var d := Drain(r.text[done..done + s.1], out);
    DrainSendsInOrder(r.text[done..done + s.1], out);
    var next := if s.0 == BufferIsFull then WriteFrom(r, done + s.1, size, d.1) else (Written, d.1);
    if s.0 == BufferIsFull {
      WriteFromMeetsSpec(r, done + s.1, size, d.1);
    }
    PassMeetsSpec(r, done, s.1, s.0, out, d, next, WriteFrom(r, done, size, out));
  }

  /**
   * A write that returns has sent the object's whole text in order, and the serializer accepted
   * the object.
   */
  lemma WrittenSendsText(r: Rendering, done: nat, size: nat, out: Output)
    requires done <= |r.text| && size > 0
    requires WriteFrom(r, done, size, out).0 == Written
    ensures r.legal && WriteFrom(r, done, size, out).1.received == out.received + r.text[done..]
  {
    WriteFromMeetsSpec(r, done, size, out);
  }

  /** A refused object has had all the text the serializer produced for it sent. */
  lemma RefusedSendsText(r: Rendering, done: nat, size: nat, out: Output)
    requires done <= |r.text| && size > 0
    requires WriteFrom(r, done, size, out).0 == Refused
    ensures !r.legal && WriteFrom(r, done, size, out).1.received == out.received + r.text[done..]
  {
    WriteFromMeetsSpec(r, done, size, out);
  }

  /** A write that throws a system error has sent a prefix of the object's text. */
  lemma FailedSendsPrefix(r: Rendering, done: nat, size: nat, out: Output)
    requires done <= |r.text| && size > 0
    requires WriteFrom(r, done, size, out).0.Failed?
    ensures WriteFrom(r, done, size, out).0.error.SystemError?
    ensures SentPrefix(out.received, WriteFrom(r, done, size, out).1.received, r.text[done..])
  {
    WriteFromMeetsSpec(r, done, size, out);
  }

  /** A prefix of the beginning of `whole` is a prefix of `whole`. */
  lemma SentPrefixWithin(before: seq<char>, after: seq<char>, part: seq<char>, whole: seq<char>)
    requires SentPrefix(before, after, part) && part <= whole
    ensures SentPrefix(before, after, whole)
  {
    assert part[..|after| - |before|] == whole[..|after| - |before|];
  }

  /** Sending all of `chunk` and then a prefix of `rest` sends a prefix of `chunk + rest`. */
  lemma SentPrefixAfter(before: seq<char>, chunk: seq<char>, mid: seq<char>, after: seq<char>, rest: seq<char>)
    requires mid == before + chunk && SentPrefix(mid, after, rest)
    ensures SentPrefix(before, after, chunk + rest)
  {
    var m := |after| - |mid|;
    assert (chunk + rest)[..|chunk| + m] == chunk + rest[..m];
  }

  /**
   * To a descriptor that takes everything it is given, an object the serializer accepts is
   * written whole, whatever the buffer size.
   */
  lemma {:induction false} AcceptingOutputTakesWholeObject(r: Rendering, done: nat, size: nat, out: Output)
    requires done <= |r.text| && size > 0 && r.legal && out.replies == []
    decreases |r.text| - done
    ensures WriteFrom(r, done, size, out) == (Written, out.(received := out.received + r.text[done..]))
  {
    var (code, k) := Serialize(r, done, size);
    var chunk := r.text[done..done + k];
    DrainSendsInOrder(chunk, out);
    DrainToAccepting(chunk, out);
    var out1 := out.(received := out.received + chunk);
    if code == BufferIsFull {
      AcceptingOutputTakesWholeObject(r, done + k, size, out1);
      assert r.text[done..] == chunk + r.text[done + k..];
      assert out1.received + r.text[done + k..] == out.received + r.text[done..];
    } else {
      assert chunk == r.text[done..];
    }
  }

  /** A descriptor with no answers left takes all the data in one call. */
  lemma {:induction false} DrainToAccepting(data: seq<char>, out: Output)
    requires out.replies == []
    ensures Drain(data, out) == (None, out.(received := out.received + data))
  {
    if data != [] {
      var (w, out1) := WriteCall(out, data);
      assert w == Success(IoResult(|data|)) && out1 == out.(received := out.received + data);
      assert data[|data|..] == [];
      assert Drain(data, out) == Drain([], out1);
    } else {
      assert out.received + data == out.received;
    }
  }

  /** Several items written one after the other: stops at the first that does not end in `Written`. */
  function WriteAll(items: seq<L.Item>, render: Object -> Rendering, size: nat, out: Output): (WriteOutcome, Output)
    requires size > 0
    decreases |items|
  {
    if items == [] then (Written, out)
    else
      match WriteFrom(render(L.ToJoppObject(items[0])), 0, size, out)
      case (Written, out1) => WriteAll(items[1..], render, size, out1)
      case other => other
  }

  /** The texts of the items' objects, one after the other. */
  function ItemTexts(items: seq<L.Item>, render: Object -> Rendering): seq<char>
  {
    if items == [] then [] else render(L.ToJoppObject(items[0])).text + ItemTexts(items[1..], render)
  }

  /**
   * Consecutive writes that all return put the objects out back to back, complete and in the
   * order of the calls, whatever the buffer size.
   */
  lemma {:induction false} WritesBackToBack(items: seq<L.Item>, render: Object -> Rendering, size: nat, out: Output)
    requires size > 0
    decreases |items|
    ensures WriteAll(items, render, size, out).0 == Written ==>
      WriteAll(items, render, size, out).1.received == out.received + ItemTexts(items, render)
  {
    if items != [] {
      var r := render(L.ToJoppObject(items[0]));
      var (outcome, out1) := WriteFrom(r, 0, size, out);
      assert r.text[0..] == r.text;
      if outcome == Written {
        WrittenSendsText(r, 0, size, out);
        WritesBackToBack(items[1..], render, size, out1);
      }
    }
  }

  /** A `json_log::writer`: a descriptor to write to and a buffer of `m_buffer_size` characters. */
  class Writer {
    /** `m_output_fd`. */
    const outputFd: int
    /** `m_output_buffer`, `m_buffer_size` characters long. */
    const buffer: array<char>
    /** What the serializer writes for each object. */
    const render: Object -> Rendering

    /** `writer(buffer_size, output_fd)`, by default a 65536-byte buffer and standard error. */
    constructor(render: Object -> Rendering, bufferSize: nat := DEFAULT_BUFFER_SIZE, outputFd: int := STDERR_FILENO)
      ensures fresh(buffer) && buffer.Length == bufferSize && this.outputFd == outputFd && this.render == render
    {
      this.render := render;
      this.outputFd := outputFd;
      buffer := new char[bufferSize];
    }

    /**
     * `write(item)`: serializes the item's object into the whole buffer again and again, writing
     * out each chunk (the characters from the start of the buffer to where the serializer stopped)
     * completely before the next `serialize`, and returns after the chunk of a completed object.
     * A buffer of no characters never lets the serializer finish, so it is excluded.
     */
    method Write(item: L.Item, out0: Output) returns (outcome: WriteOutcome, out: Output)
      requires buffer.Length > 0
      modifies buffer
      ensures (outcome, out) == WriteFrom(render(L.ToJoppObject(item)), 0, buffer.Length, out0)
    {
      var r := render(L.ToJoppObject(item));
      var done := 0;
      out := out0;
      while true
        invariant done <= |r.text|
        invariant WriteFrom(r, 0, buffer.Length, out0) == WriteFrom(r, done, buffer.Length, out)
        decreases |r.text| - done
      {
        var (code, k) := Serialize(r, done, buffer.Length);
        CopyChunk(buffer, r.text[done..done + k]);
        var data := buffer[..k];
        var err;
        err, out := DrainChunk(data, out);
        if err.Some? {
          return Failed(err.value), out;
        }
        if code == Completed {
          return Written, out;
        }
        if code == IllegalCharInString {
          return Refused, out;
        }
        done := done + k;
      }
    }

    /** The serializer writes `chunk` at the start of the buffer. */
    static method CopyChunk(a: array<char>, chunk: seq<char>)
      requires |chunk| <= a.Length
      modifies a
      ensures a[..|chunk|] == chunk
    {
      forall i | 0 <= i < |chunk| {
        a[i] := chunk[i];
      }
    }

    /** The inner loop: `data_to_write` starts after the characters each write transferred. */
    static method DrainChunk(chunk: seq<char>, out0: Output) returns (err: Option<Error>, out: Output)
      ensures (err, out) == Drain(chunk, out0)
    {
      var data := chunk;
      out := out0;
      while |data| != 0
        invariant Drain(chunk, out0) == Drain(data, out)
        decreases |out.replies|, |data|
      {
        var (w, out1) := WriteCall(out, data);
        out := out1;
        if w.Failure? {
          return Some(w.error), out;
        }
        data := data[w.value.BytesTransferred()..];
      }
      err := None;
    }
  }
}
