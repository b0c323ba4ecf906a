/**
 * The JSON log reader of src/json_log/reader.cpp: when its descriptor is readable it reads
 * chunks until a read would block, feeds each chunk to a resumable jopp parser, and hands every
 * completed value to a receiver: a log item to `consume`, anything else to `on_invalid_log_item`,
 * a parse error to `on_parse_error`.
 *
 * The parser is not code of this repository. It is given as a step function over a parser state:
 * what one `parse(span)` call reports, how much of the span it took, the state it leaves, and the
 * value it completed. The receiver's calls are returned in the order they are made.
 */
module JsonLogReader {
  import opened Wrappers
  import opened Io
  import Json
  import L = LogItem
  import Activity

  /** `jopp::parser_error_code`: `completed`, `more_data_needed`, or one of the errors. */
  datatype ParseCode = Completed | MoreDataNeeded | ParseFailure(code: int)

  /** What one `parse(span)` call reports; `value` is what the container holds after `completed`. */
  datatype ParseStep<S> = ParseStep(code: ParseCode, consumed: nat, next: S, value: Json.Value)

  /**
   * A jopp parser: `parse` for one call, the state of a parser just made (`initial`), and the
   * nesting depth a state is at (`current_depth()`).
   */
  datatype Parser<!S> = Parser(parse: (S, seq<char>) -> ParseStep<S>, initial: S, depth: S -> nat)

  /**
   * What the reader relies on: a parse call takes no more than it is given, and a value it
   * completes has at least one character.
   */
  ghost predicate WellBehaved<S(!new)>(p: Parser<S>)
  {
    forall s, input :: p.parse(s, input).consumed <= |input| &&
      (p.parse(s, input).code == Completed ==> p.parse(s, input).consumed > 0)
  }

  /** A call the reader makes on its receiver, with the reader's name `who`. */
  datatype ReceiverCall =
    | Consume(who: string, item: L.Item)
    | InvalidLogItem(who: string, message: string)
    | ParseError(who: string, code: ParseCode)

  const NOT_AN_OBJECT: string := "A log item must be an object"

  /**
   * Where a completed value goes: an object that makes a log item to `consume`, an object that
   * does not to `on_invalid_log_item` with the conversion's error, and any other value to
   * `on_invalid_log_item` with "A log item must be an object".
   */
  function Route(v: Json.Value, who: string): (calls: seq<ReceiverCall>)
  {
    if !v.Object? then [InvalidLogItem(who, NOT_AN_OBJECT)]
    else
      match L.MakeLogItem(v.fields)
      case Success(item) => [Consume(who, item)]
      case Failure(message) => [InvalidLogItem(who, message)]
  }

  /**
   * Every value gives the receiver exactly one call, never a parse error; a log item's own
   * object is consumed as that item.
   */
  lemma {:induction false} RouteOneCall(v: Json.Value, who: string)
    ensures |Route(v, who)| == 1 && !Route(v, who)[0].ParseError?
    ensures Route(v, who)[0].Consume? <==> v.Object? && L.MakeLogItem(v.fields).Success?
    ensures forall item: L.Item :: v == Json.Object(L.ToJoppObject(item)) ==> Route(v, who) == [Consume(who, item)]
  {
    forall item: L.Item | v == Json.Object(L.ToJoppObject(item))
      ensures Route(v, who) == [Consume(who, item)]
    {
      L.LogItemRoundTrip(item);
    }
  }

  /**
   * `parse_buffer`: parses `input` from `state` on. After each completed value it routes the
   * value, starts over from a fresh state and goes on with the rest of the input; on
   * `more_data_needed` it keeps the parser's state and ends well; on any other code it reports a
   * parse error and ends jammed. The receiver's calls, the state left, and whether it jammed.
   */
  function ParseBuffer<S(!new)>(p: Parser<S>, state: S, input: seq<char>, who: string): (seq<ReceiverCall>, S, bool)
    requires WellBehaved(p)
    decreases |input|
  {
    var step := p.parse(state, input);
    if step.code == Completed then
      var more := ParseBuffer(p, p.initial, input[step.consumed..], who);
      (Route(step.value, who) + more.0, more.1, more.2)
    else if step.code == MoreDataNeeded then ([], step.next, false)
    else ([ParseError(who, step.code)], step.next, true)
  }

  /**
   * The receiver hears of a parse error only last, and exactly when the buffer jammed; every
   * other call is the routing of a completed value.
   */
  lemma {:induction false} ParseErrorOnlyWhenJammed<S(!new)>(p: Parser<S>, state: S, input: seq<char>, who: string)
    requires WellBehaved(p)
    decreases |input|
    ensures var pb := ParseBuffer(p, state, input, who);
      && (pb.2 <==> pb.0 != [] && pb.0[|pb.0| - 1].ParseError?)
      && forall i :: 0 <= i < |pb.0| - 1 ==> !pb.0[i].ParseError?
  {
    var step := p.parse(state, input);
    if step.code == Completed {
      var rest := input[step.consumed..];
      ParseErrorOnlyWhenJammed(p, p.initial, rest, who);
      RouteOneCall(step.value, who);
      var more := ParseBuffer(p, p.initial, rest, who).0;
      var calls := Route(step.value, who) + more;
      assert forall i :: 1 <= i < |calls| ==> calls[i] == more[i - 1];
    }
  }

  /** The parse of `tail` from `st` stops at `more_data_needed`, leaving the state `left`. */
  ghost predicate PendsOn<S(!new)>(p: Parser<S>, st: S, tail: seq<char>, left: S)
  {
    p.parse(st, tail).code == MoreDataNeeded && left == p.parse(st, tail).next
  }

  /**
   * What `parse_buffer` leaves for the next chunk. A chunk the receiver hears nothing about never
   * jams, and leaves the state the given one reaches on the whole chunk; after one or more
   * completed values, a chunk that did not jam leaves the state a fresh parser reaches on a
   * non-empty suffix of the chunk.
   */
  lemma {:induction false} StateLeftIsPendingTail<S(!new)>(p: Parser<S>, state: S, input: seq<char>, who: string)
    requires WellBehaved(p)
    decreases |input|
    ensures var pb := ParseBuffer(p, state, input, who);
      && (pb.0 == [] ==> !pb.2 && PendsOn(p, state, input, pb.1))
      && (!pb.2 && pb.0 != [] ==> exists k :: 0 < k <= |input| && PendsOn(p, p.initial, input[k..], pb.1))
  {
    var step := p.parse(state, input);
    if step.code == Completed {
      var rest := input[step.consumed..];
      StateLeftIsPendingTail(p, p.initial, rest, who);
      RouteOneCall(step.value, who);
      var more := ParseBuffer(p, p.initial, rest, who);
      if !more.2 {
        if more.0 == [] {
          assert PendsOn(p, p.initial, input[step.consumed..], more.1);
        } else {
          var k' :| 0 < k' <= |rest| && PendsOn(p, p.initial, rest[k'..], more.1);
          assert rest[k'..] == input[step.consumed + k'..];
          assert PendsOn(p, p.initial, input[step.consumed + k'..], more.1);
        }
      }
    }
  }

  /** What a read call gives back: some bytes (none at end of input), or -1 with an `errno`. */
  datatype ReadReply = Bytes(data: seq<char>) | Errno(errno: int)

  /**
   * `read(fd, buffer)` with a buffer of `size` bytes, the descriptor answering with `replies`:
   * interrupted calls are retried; EAGAIN gives `None` (would block), as does a descriptor with
   * no answer left; another error throws "I/O operation failed". A reply longer than the buffer
   * is cut, and its rest is what the next call gets.
   */
  function ReadCall(replies: seq<ReadReply>, size: nat): (res: (Result<Option<seq<char>>, Error>, seq<ReadReply>))
    decreases |replies|
    ensures Weight(res.1) <= Weight(replies)
    ensures res.0.Success? && res.0.value.Some? && res.0.value.value != [] ==>
      Weight(res.1) < Weight(replies) && |res.0.value.value| <= size
  {
    if replies == [] then (Success(None), [])
    else
      match replies[0]
      case Errno(e) =>
        if Interrupted(CallOutcome(-1, e)) then ReadCall(replies[1..], size)
        else
          (match MakeIoResult(-1, e)
           case Failure(err) => (Failure(err), replies[1..])
           case Success(_) => (Success(None), replies[1..]))
      case Bytes(data) =>
        if |data| <= size then (Success(Some(data)), replies[1..])
        else
          WeightSplit(data, size, replies[1..]);
          (Success(Some(data[..size])), [Bytes(data[size..])] + replies[1..])
  }

  /** How much a descriptor still has to answer: one for each reply, and one for each byte. */
  function Weight(replies: seq<ReadReply>): nat
  {
    if replies == [] then 0
    else (if replies[0].Bytes? then 1 + |replies[0].data| else 1) + Weight(replies[1..])
  }

  lemma WeightSplit(data: seq<char>, size: nat, rest: seq<ReadReply>)
    requires size < |data|
    ensures Weight([Bytes(data[size..])] + rest) + size == Weight([Bytes(data)] + rest)
  {
    assert ([Bytes(data[size..])] + rest)[1..] == rest;
    assert ([Bytes(data)] + rest)[1..] == rest;
  }

  /** What one `handle_event` did: the receiver's calls, the parser state left, whether it stopped listening, an exception. */
  datatype Handled<S> = Handled(calls: seq<ReceiverCall>, state: S, stopListening: bool, error: Option<Error>)

  /**
   * The read loop of `handle_event`, from parser state `state`: reads until a read would block
   * (still listening), throws, or reaches the end of input; at the end of input it reports
   * `more_data_needed` if the parser is inside a value, and stops listening. Each chunk read is
   * parsed; a jammed parse stops listening and reads no more. Also the replies left unread.
   */
  function ReadLoop<S(!new)>(p: Parser<S>, state: S, replies: seq<ReadReply>, size: nat, who: string): (Handled<S>, seq<ReadReply>)
    requires WellBehaved(p)
    decreases Weight(replies)
  {
    var read := ReadCall(replies, size);
    if read.0.Failure? then (Handled([], state, false, Some(read.0.error)), read.1)
    else if read.0.value.None? then (Handled([], state, false, None), read.1)
    else if read.0.value.value == [] then
      (Handled(if p.depth(state) != 0 then [ParseError(who, MoreDataNeeded)] else [], state, true, None), read.1)
    else
      var pb := ParseBuffer(p, state, read.0.value.value, who);
      if pb.2 then (Handled(pb.0, pb.1, true, None), read.1)
      else
        var next := ReadLoop(p, pb.1, read.1, size, who);
        (next.0.(calls := pb.0 + next.0.calls), next.1)
  }

  /**
   * At the end of input the reader stops listening; it tells the receiver `more_data_needed`
   * exactly when the parser is inside a value.
   */
  lemma {:induction false} EndOfInputStops<S(!new)>(p: Parser<S>, state: S, replies: seq<ReadReply>, size: nat, who: string)
    requires WellBehaved(p) && replies != [] && replies[0] == Bytes([])
    ensures var (h, left) := ReadLoop(p, state, replies, size, who);
      && h.stopListening && h.error.None? && h.state == state && left == replies[1..]
      && (h.calls == [ParseError(who, MoreDataNeeded)] <==> p.depth(state) != 0)
      && (h.calls == [] <==> p.depth(state) == 0)
  {
  }

  /** A descriptor with nothing to give makes the reader return, still listening, with nothing done. */
  lemma {:induction false} WouldBlockKeepsListening<S(!new)>(p: Parser<S>, state: S, replies: seq<ReadReply>, size: nat, who: string)
    requires WellBehaved(p)
    requires replies == [] || (replies[0].Errno? && IsRetryError(replies[0].errno))
    ensures ReadLoop(p, state, replies, size, who).0 == Handled([], state, false, None)
  {
    if replies != [] {
      assert !Interrupted(CallOutcome(-1, replies[0].errno));
    }
  }

  /**
   * When the first chunk jams the parser, the reader stops listening with the calls of that
   * chunk, and reads nothing more.
   */
  lemma {:induction false} JammedReadsNoFurther<S(!new)>(p: Parser<S>, state: S, replies: seq<ReadReply>, size: nat, who: string)
    requires WellBehaved(p) && replies != [] && replies[0].Bytes?
    requires 0 < |replies[0].data| <= size
    requires ParseBuffer(p, state, replies[0].data, who).2
    ensures ReadLoop(p, state, replies, size, who) ==
      (Handled(ParseBuffer(p, state, replies[0].data, who).0, ParseBuffer(p, state, replies[0].data, who).1, true, None), replies[1..])
  {
  }

  /**
   * How a `handle_event` may end: a parse error is the receiver's last call, and it comes only
   * with the reader stopping listening; an exception stops the loop without stopping listening.
   */
  predicate ParseErrorLast<S>(h: Handled<S>)
  {
    && (forall i :: 0 <= i < |h.calls| - 1 ==> !h.calls[i].ParseError?)
    && (h.calls != [] && h.calls[|h.calls| - 1].ParseError? ==> h.stopListening)
    && (h.error.Some? ==> !h.stopListening)
  }

  /** Calls with no parse error among them, followed by an ending that keeps the order, keep it. */
  lemma NoParseErrorBefore<S>(calls: seq<ReceiverCall>, h: Handled<S>)
    requires forall i :: 0 <= i < |calls| ==> !calls[i].ParseError?
    requires ParseErrorLast(h)
    ensures ParseErrorLast(h.(calls := calls + h.calls))
  {
    var all := calls + h.calls;
    assert forall i :: |calls| <= i < |all| ==> all[i] == h.calls[i - |calls|];
  }

  /** Over a whole `handle_event` the receiver hears of a parse error only last, as it stops listening. */
  lemma {:induction false} ParseErrorEndsListening<S(!new)>(p: Parser<S>, state: S, replies: seq<ReadReply>, size: nat, who: string)
    requires WellBehaved(p)
    decreases Weight(replies)
    ensures ParseErrorLast(ReadLoop(p, state, replies, size, who).0)
  {
    var read := ReadCall(replies, size);
    if read.0.Success? && read.0.value.Some? && read.0.value.value != [] {
      var chunk := read.0.value.value;
      ParseErrorOnlyWhenJammed(p, state, chunk, who);
      var pb := ParseBuffer(p, state, chunk, who);
      if !pb.2 {
        ParseErrorEndsListening(p, pb.1, read.1, size, who);
        var h := ReadLoop(p, pb.1, read.1, size, who).0;
        assert forall i :: 0 <= i < |pb.0| ==> !pb.0[i].ParseError?;
        NoParseErrorBefore(pb.0, h);
      }
    }
  }

  /** After a chunk that does not jam the parser, the read loop goes on from the state it left. */
  lemma ReadLoopGoesOn<S(!new)>(p: Parser<S>, state: S, replies: seq<ReadReply>, size: nat, who: string)
    requires WellBehaved(p)
    requires var r := ReadCall(replies, size);
      r.0.Success? && r.0.value.Some? && r.0.value.value != [] && !ParseBuffer(p, state, r.0.value.value, who).2
    ensures var r := ReadCall(replies, size);
      var pb := ParseBuffer(p, state, r.0.value.value, who);
      var next := ReadLoop(p, pb.1, r.1, size, who);
      ReadLoop(p, state, replies, size, who) == (next.0.(calls := pb.0 + next.0.calls), next.1)
  {
  }

  /** The calls made so far, then those of one chunk, then those of the rest of the loop. */
  lemma CallsGoOn<S>(goal: (Handled<S>, seq<ReadReply>), now: (Handled<S>, seq<ReadReply>),
                     before: seq<ReceiverCall>, more: seq<ReceiverCall>, next: (Handled<S>, seq<ReadReply>))
    requires goal.0 == now.0.(calls := before + now.0.calls) && goal.1 == now.1
    requires now == (next.0.(calls := more + next.0.calls), next.1)
    ensures goal.0 == next.0.(calls := (before + more) + next.0.calls) && goal.1 == next.1
  {
    assert before + (more + next.0.calls) == (before + more) + next.0.calls;
  }

  /** A `json_log::reader`: its name, its input buffer of `m_buffer_size` bytes, and its parser's state. */
  class Reader<S(!new)> {
    /** `m_who`, passed to every receiver call. */
    const who: string
    /** The jopp parser the state belongs to. */
    const parser: Parser<S>
    /** `m_input_buffer`, `m_buffer_size` bytes long. */
    const buffer: array<char>
    /** `m_state`: the parser's state, with its container. */
    var state: S

    /** A reader called `who` with a buffer of `bufferSize` bytes and a fresh parser. */
    constructor(who: string, parser: Parser<S>, bufferSize: nat)
      ensures this.who == who && this.parser == parser && fresh(buffer) && buffer.Length == bufferSize
      ensures state == parser.initial
    {
      this.who := who;
      this.parser := parser;
      buffer := new char[bufferSize];
      state := parser.initial;
    }

    /**
     * `handle_event(event, fd)`: nothing at all unless the event allows reading; otherwise the
     * read loop, with the descriptor answering `replies0`. Returns the receiver's calls, whether
     * it stopped listening, the exception it threw, and the replies left unread.
     */
    method HandleEvent(status: Activity.ActivityStatus, replies0: seq<ReadReply>)
      returns (calls: seq<ReceiverCall>, stopListening: bool, error: Option<Error>, replies: seq<ReadReply>)
      requires WellBehaved(parser)
      modifies this, buffer
      ensures !Activity.CanRead(status) ==>
        calls == [] && !stopListening && error.None? && replies == replies0 && state == old(state)
      ensures Activity.CanRead(status) ==>
        (Handled(calls, state, stopListening, error), replies) == ReadLoop(parser, old(state), replies0, buffer.Length, who)
    {
      calls, stopListening, error, replies := [], false, None, replies0;
      if !Activity.CanRead(status) {
        return;
      }
      ghost var goal := ReadLoop(parser, state, replies0, buffer.Length, who);
      assert goal.0.calls == calls + goal.0.calls;
      while true
        invariant var now := ReadLoop(parser, state, replies, buffer.Length, who);
          && goal.0 == now.0.(calls := calls + now.0.calls) && goal.1 == now.1
        decreases Weight(replies)
      {
        ghost var state1, replies1 := state, replies;
        var r := ReadCall(replies, buffer.Length);
        var read := r.0;
        replies := r.1;
        if read.Failure? {
          assert calls + [] == calls;
          return calls, false, Some(read.error), replies;
        }
        if read.value.None? {
          assert calls + [] == calls;
          return calls, false, None, replies;
        }
        var chunk := read.value.value;
        CopyIn(buffer, chunk);
        if |chunk| == 0 {
          if parser.depth(state) != 0 {
            calls := calls + [ParseError(who, MoreDataNeeded)];
          } else {
            assert calls + [] == calls;
          }
          return calls, true, None, replies;
        }
        var more, jammed;
        ghost var before := calls;
        more, state, jammed := ParseBufferLoop(parser, state, buffer[..|chunk|], who);
        calls := calls + more;
        if jammed {
          return calls, true, None, replies;
        }
        ReadLoopGoesOn(parser, state1, replies1, buffer.Length, who);
        CallsGoOn(goal, ReadLoop(parser, state1, replies1, buffer.Length, who), before, more,
          ReadLoop(parser, state, replies, buffer.Length, who));
      }
    }

    /** The read puts the bytes it got at the start of the buffer. */
    static method CopyIn(a: array<char>, data: seq<char>)
      requires |data| <= a.Length
      modifies a
      ensures a[..|data|] == data
    {
      forall i | 0 <= i < |data| {
        a[i] := data[i];
      }
    }

    /**
     * The loop of `parse_buffer`: each call's span starts where the previous one stopped, the
     * receiver is called for each completed value, and the state is replaced with a fresh one.
     */
    static method ParseBufferLoop(p: Parser<S>, state0: S, input0: seq<char>, who: string)
      returns (calls: seq<ReceiverCall>, state: S, jammed: bool)
      requires WellBehaved(p)
      ensures (calls, state, jammed) == ParseBuffer(p, state0, input0, who)
    {
      calls, state := [], state0;
      var input := input0;
      ghost var goal := ParseBuffer(p, state0, input0, who);
      assert goal.0 == calls + goal.0;
      while true
        invariant var now := ParseBuffer(p, state, input, who);
          goal.0 == calls + now.0 && goal.1 == now.1 && goal.2 == now.2
        decreases |input|
      {
        ghost var now := ParseBuffer(p, state, input, who);
        var step := p.parse(state, input);
        input := input[step.consumed..];
        match step.code
        case Completed =>
          ghost var before := calls;
          calls := calls + Route(step.value, who);
          state := p.initial;
          ghost var next := ParseBuffer(p, state, input, who);
          assert now.0 == Route(step.value, who) + next.0;
          assert before + (Route(step.value, who) + next.0) == calls + next.0;
        case MoreDataNeeded =>
          assert calls + [] == calls;
          return calls, step.next, false;
        case ParseFailure(_) =>
          return calls + [ParseError(who, step.code)], step.next, true;
      }
    }
  }
}
