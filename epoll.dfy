/**
 * One dispatch pass of the epoll reactor, src/os_services/io_multiplexer/epoll_instance.cpp:
 * `wait_for_and_distpatch_events` waits for ready entries of `m_listeners` and hands each one,
 * through an `epoll_fd_activity`, to the entry's handler; entries whose handler stopped listening
 * are erased by id.
 *
 * The kernel is not run. The outcomes of the `epoll_wait` calls are given, and so are the ready
 * entries it reports (by the id of the entry their `data.ptr` field refers to) and what each handler
 * does when called: whether it calls `stop_listening` and which descriptors it registers through
 * `add`.
 */
module Epoll {
  import opened Wrappers
  import opened Io
  import opened Activity
  import FD = FileDescriptors

  const EPOLLIN: nat := 0x001
  const EPOLLOUT: nat := 0x004

  /** The size of the event array a pass hands to `epoll_wait`. */
  const MaxEvents: nat := 1024

  /** The epoll timeout meaning "wait until something is ready". */
  const InfiniteTimeout: int := -1

  /**
   * `to_epoll_event`: the epoll mask to listen for. Only the four enumerators convert; any other
   * value throws (`None` here).
   */
  function ToEpollEvent(s: ActivityStatus): (m: Option<nat>)
    ensures m.Some? <==> IsNamed(s)
    ensures m.Some? ==> m.value == (if CanRead(s) then EPOLLIN else 0) + (if CanWrite(s) then EPOLLOUT else 0)
  {
    if s == Activity.None then Some(0)
    else if s == Read then Some(EPOLLIN)
    else if s == Write then Some(EPOLLOUT)
    else if s == ReadOrWrite then Some(EPOLLIN + EPOLLOUT)
    else Option.None
  }

  /**
   * `epoll_event_to_activity_status`: readable when EPOLLIN is reported, writable when EPOLLOUT
   * is; other bits of the mask are not looked at.
   */
  function EpollEventToActivityStatus(mask: nat): (s: ActivityStatus)
    ensures IsNamed(s)
    ensures CanRead(s) <==> (mask / EPOLLIN) % 2 == 1
    ensures CanWrite(s) <==> (mask / EPOLLOUT) % 2 == 1
  {
    FromFlags(mask % 2 == 1, (mask / 4) % 2 == 1)
  }

  /** The two conversions invert each other on the four enumerators and on the four masks. */
  lemma {:induction false} EpollConversionsInverse(s: ActivityStatus, mask: nat)
    ensures IsNamed(s) ==> EpollEventToActivityStatus(ToEpollEvent(s).value) == s
    ensures mask in {0, EPOLLIN, EPOLLOUT, EPOLLIN + EPOLLOUT} ==>
      ToEpollEvent(EpollEventToActivityStatus(mask)) == Some(mask)
  {
    if IsNamed(s) {
      NamedStatusDecided(s);
      var m := ToEpollEvent(s).value;
      NamedStatusDecided(EpollEventToActivityStatus(m));
    }
  }

  /**
   * The wait of a pass: `epoll_wait` retried while interrupted. When the last call still fails,
   * the pass throws "Failed to wait for events" with its `errno`; otherwise it yields the number of
   * ready entries.
   */
  method WaitForEvents(outcomes: seq<CallOutcome>) returns (r: Result<nat, Error>)
    requires exists i :: 0 <= i < |outcomes| && !Interrupted(outcomes[i])
    requires forall i :: 0 <= i < |outcomes| ==> outcomes[i].result >= -1
    ensures var last := outcomes[FirstStop(outcomes)];
      && (last.result == -1 <==> r.Failure?)
      && (r.Failure? ==> r.error == SystemError("Failed to wait for events", last.errno))
      && (r.Success? ==> r.value == last.result)
  {
    var res, errno, calls := DoWhileEintr(outcomes);
    if res == -1 {
      return Failure(SystemError("Failed to wait for events", errno));
    }
    return Success(res);
  }

  /**
   * An `epoll_entry_data_impl`: the id it was registered under and the descriptor it owns
   * (`get_id()` and `get_fd_native_handle()`).
   */
  datatype EntryData = EntryData(id: Uint64, fd: FD.FdRef)

  /** A ready entry as `epoll_wait` reports it: which entry, and the epoll mask. */
  datatype ReadyEvent = ReadyEvent(id: Uint64, mask: nat)

  /**
   * What a handler does when it is called: whether it calls `stop_listening` on the event, and the
   * descriptors it registers through `add`, in order.
   */
  datatype Reaction = Reaction(stopListening: bool, adds: seq<FD.FdRef>)

  /** One handler call: the entry's id, the status of the event, and the descriptor passed along. */
  datatype Dispatch = Dispatch(id: Uint64, status: ActivityStatus, fd: FD.FdRef)

  /**
   * An `epoll_fd_activity`: the `activity_event` a handler receives. It refers to the entry, the
   * status it was built with, and the epoll descriptor; `stop_listening` marks the entry for
   * removal.
   */
  class EpollFdActivity {
    const entry: EntryData
    const status: ActivityStatus
    const epollFd: FD.FdRef
    var shouldBeRemoved: bool

    constructor (entry: EntryData, status: ActivityStatus, epollFd: FD.FdRef)
      ensures this.entry == entry && this.status == status && this.epollFd == epollFd
      ensures !shouldBeRemoved
    {
      this.entry := entry;
      this.status := status;
      this.epollFd := epollFd;
      shouldBeRemoved := false;
    }

    /** `get_activity_status()`: the status the activity was built with. */
    function GetActivityStatus(): (s: ActivityStatus)
      ensures s == status
    {
      status
    }

    /** `item_should_be_removed()`. */
    predicate ItemShouldBeRemoved()
      reads this
      ensures ItemShouldBeRemoved() <==> shouldBeRemoved
    {
      shouldBeRemoved
    }

    /** `stop_listening()`: the entry is to be removed after the handler returns. */
    method StopListening()
      modifies this
      ensures shouldBeRemoved
    {
      shouldBeRemoved := true;
    }

    /**
     * `update_listening_status()`: changes what the epoll instance listens for on the entry's
     * descriptor, by an `epoll_ctl` call whose outcome is `ctl`. It fails (the source throws) when
     * the status has no epoll mask or the call fails. That `epoll_ctl` fails (EBADF) when the epoll
     * descriptor is not valid is an assumption about the kernel, stated as the `requires` on `ctl`.
     */
    method UpdateListeningStatus(newStatus: ActivityStatus, ctl: CallOutcome) returns (ok: bool)
      requires !epollFd.IsValid() ==> ctl.result == -1
      ensures ok <==> IsNamed(newStatus) && ctl.result != -1
      ensures !epollFd.IsValid() ==> !ok
    {
      ok := ToEpollEvent(newStatus).Some? && ctl.result != -1;
    }

    /**
     * `process()`: calls the entry's handler with this event; the handler's own
     * `stop_listening()` call is the one `reaction` names.
     */
    method Process(reaction: Reaction)
      modifies this
      ensures shouldBeRemoved == (old(shouldBeRemoved) || reaction.stopListening)
    {
      if reaction.stopListening {
        StopListening();
      }
    }
  }

  /** The descriptors that the handlers of `reactions` register, in call order. */
  function AllAdds(reactions: seq<Reaction>): (fds: seq<FD.FdRef>)
    ensures forall i :: 0 <= i < |reactions| ==> |reactions[i].adds| <= |fds|
  {
    if |reactions| == 0 then [] else AllAdds(reactions[..|reactions| - 1]) + reactions[|reactions| - 1].adds
  }

  /** The entries that registering `fds` in order creates, with ids counting up from `first`. */
  function NewEntries(first: nat, fds: seq<FD.FdRef>): (m: map<Uint64, EntryData>)
    requires first + |fds| <= Uint64Modulus
  {
    if |fds| == 0 then map[]
    else
      var k := first + |fds| - 1;
      NewEntries(first, fds[..|fds| - 1])[k := EntryData(k, fds[|fds| - 1])]
  }

  /** The ids of the ready entries whose handler stopped listening. */
  function Stopped(ready: seq<ReadyEvent>, reactions: seq<Reaction>): (ids: set<Uint64>)
    requires |reactions| == |ready|
    ensures forall k :: k in ids <==> exists i :: 0 <= i < |ready| && reactions[i].stopListening && ready[i].id == k
  {
    set i | 0 <= i < |ready| && reactions[i].stopListening :: ready[i].id
  }

  /** The handler calls a pass makes: one per ready entry, in reported order. */
  function Dispatches(listeners: map<Uint64, EntryData>, ready: seq<ReadyEvent>): (d: seq<Dispatch>)
    requires forall i :: 0 <= i < |ready| ==> ready[i].id in listeners
    ensures |d| == |ready|
    ensures forall i :: 0 <= i < |ready| ==>
      d[i] == Dispatch(ready[i].id, EpollEventToActivityStatus(ready[i].mask), listeners[ready[i].id].fd)
  {
    if |ready| == 0 then []
    else
      var e := ready[|ready| - 1];
      Dispatches(listeners, ready[..|ready| - 1]) + [Dispatch(e.id, EpollEventToActivityStatus(e.mask), listeners[e.id].fd)]
  }

  /**
   * The entries after the first `n` dispatches of a pass that began with `start` and the id counter
   * at `first`: each dispatch registers what its handler adds, then erases the ready entry if its
   * handler stopped listening.
   */
  ghost function AfterDispatches(start: map<Uint64, EntryData>, first: nat, ready: seq<ReadyEvent>,
                                 reactions: seq<Reaction>, n: nat): map<Uint64, EntryData>
    requires |reactions| == |ready| && n <= |ready|
    requires first + |AllAdds(reactions)| <= Uint64Modulus
  {
    if n == 0 then start
    else
      AllAddsSnoc(reactions, n - 1);
      AllAddsPrefix(reactions, n);
      var before := AfterDispatches(start, first, ready, reactions, n - 1);
      AfterDispatch(before, first + |AllAdds(reactions[..n - 1])|, ready[n - 1], reactions[n - 1])
  }

  /**
   * The entries after one dispatch with the id counter at `next`: what the handler adds is
   * registered, then the ready entry is erased if the handler stopped listening.
   */
  function AfterDispatch(listeners: map<Uint64, EntryData>, next: nat, e: ReadyEvent, reaction: Reaction): map<Uint64, EntryData>
    requires next + |reaction.adds| <= Uint64Modulus
  {
    var added := listeners + NewEntries(next, reaction.adds);
    if reaction.stopListening then added - {e.id} else added
  }

  lemma {:induction false} AfterDispatchesUnfold(start: map<Uint64, EntryData>, first: nat, ready: seq<ReadyEvent>,
                                                 reactions: seq<Reaction>, n: nat)
    requires |reactions| == |ready| && n < |ready|
    requires first + |AllAdds(reactions)| <= Uint64Modulus
    ensures first + |AllAdds(reactions[..n])| + |reactions[n].adds| <= Uint64Modulus
    ensures AfterDispatches(start, first, ready, reactions, n + 1)
         == AfterDispatch(AfterDispatches(start, first, ready, reactions, n), first + |AllAdds(reactions[..n])|, ready[n], reactions[n])
  {
    AllAddsSnoc(reactions, n);
    AllAddsPrefix(reactions, n + 1);
  }

  /** What one dispatch leaves is the next step of `AfterDispatches`. */
  lemma {:induction false} DispatchedAsUnfolded(cur: map<Uint64, EntryData>, before: map<Uint64, EntryData>, next: nat,
                                                start: map<Uint64, EntryData>, first: nat, ready: seq<ReadyEvent>,
                                                reactions: seq<Reaction>, n: nat)
    requires |reactions| == |ready| && n < |ready|
    requires first + |AllAdds(reactions)| <= Uint64Modulus
    requires first + |AllAdds(reactions[..n])| + |reactions[n].adds| <= Uint64Modulus
    requires next == first + |AllAdds(reactions[..n])|
    requires before == AfterDispatches(start, first, ready, reactions, n)
    requires cur == AfterDispatch(before, next, ready[n], reactions[n])
    requires AfterDispatches(start, first, ready, reactions, n + 1)
          == AfterDispatch(AfterDispatches(start, first, ready, reactions, n), first + |AllAdds(reactions[..n])|, ready[n], reactions[n])
    ensures cur == AfterDispatches(start, first, ready, reactions, n + 1)
  {
  }

  /** The ready entries are registered, and each is reported once. */
  predicate ReadyEntriesRegistered(listeners: map<Uint64, EntryData>, ready: seq<ReadyEvent>)
  {
    && (forall i :: 0 <= i < |ready| ==> ready[i].id in listeners)
    && (forall i, j :: 0 <= i < j < |ready| ==> ready[i].id != ready[j].id)
  }

  /** An `epoll_instance`: its epoll descriptor, `m_listeners` keyed by id, and the id counter. */
  class EpollInstance {
    const epollFd: FD.FdRef
    var listeners: map<Uint64, EntryData>
    const ids: EventHandlerId
    /** The handler calls made so far, in order. */
    var dispatched: seq<Dispatch>

    /** Every entry is filed under its own id, and every id in use is below the counter. */
    ghost predicate Valid()
      reads this, ids
    {
      forall k :: k in listeners ==> listeners[k].id == k && k < ids.value
    }

    constructor (epollFd: FD.FdRef)
      ensures Valid() && fresh(ids)
      ensures this.epollFd == epollFd && listeners == map[] && ids.value == 0 && dispatched == []
    {
      this.epollFd := epollFd;
      listeners := map[];
      ids := new EventHandlerId.Default();
      dispatched := [];
    }

    /**
     * `add`: the entry gets the next id, so the ids come out 0, 1, ... in call order, and is
     * filed under it.
     */
    method Add(fd: FD.FdRef) returns (id: Uint64)
      requires Valid() && ids.value < Uint64Modulus - 1
      modifies this, ids
      ensures Valid()
      ensures id == old(ids.value) && ids.value == id + 1
      ensures id !in old(listeners)
      ensures listeners == old(listeners)[id := EntryData(id, fd)]
      ensures dispatched == old(dispatched)
    {
      var ret := ids.Next();
      id := ret.value;
      listeners := listeners[id := EntryData(id, fd)];
    }

    /**
     * The handler's `add` calls during a dispatch: each descriptor is registered under the next
     * id, in order.
     */
    method AddEach(fds: seq<FD.FdRef>)
      requires Valid() && ids.value + |fds| < Uint64Modulus
      modifies this, ids
      ensures Valid()
      ensures ids.value == old(ids.value) + |fds|
      ensures listeners == old(listeners) + NewEntries(old(ids.value), fds)
      ensures dispatched == old(dispatched)
    {
      var j := 0;
      while j < |fds|
        invariant 0 <= j <= |fds|
        invariant Valid()
        invariant ids.value == old(ids.value) + j
        invariant listeners == old(listeners) + NewEntries(old(ids.value), fds[..j])
        invariant dispatched == old(dispatched)
      {
        var id := Add(fds[j]);
        NewEntriesSnoc(old(ids.value), fds, j);
        j := j + 1;
      }
      assert fds[..|fds|] == fds;
    }

    /**
     * One iteration of the dispatch loop: an `epoll_fd_activity` is built for the ready entry and
     * processed, which calls the entry's handler with the converted status and the entry's
     * descriptor; the handler's `add` calls register new entries; and the entry is erased when the
     * handler stopped listening.
     */
    method DispatchOne(e: ReadyEvent, reaction: Reaction)
      requires Valid() && e.id in listeners && ids.value + |reaction.adds| < Uint64Modulus
      modifies this, ids
      ensures Valid()
      ensures dispatched == old(dispatched) + [Dispatch(e.id, EpollEventToActivityStatus(e.mask), old(listeners)[e.id].fd)]
      ensures ids.value == old(ids.value) + |reaction.adds|
      ensures listeners == AfterDispatch(old(listeners), old(ids.value), e, reaction)
    {
      var entry := listeners[e.id];
      var activity := new EpollFdActivity(entry, EpollEventToActivityStatus(e.mask), epollFd);
      dispatched := dispatched + [Dispatch(e.id, activity.GetActivityStatus(), entry.fd)];
      activity.Process(reaction);
      AddEach(reaction.adds);
      if activity.ItemShouldBeRemoved() {
        listeners := listeners - {e.id};
      }
    }

    /**
     * The dispatch loop of a pass: one `DispatchOne` per ready entry, in reported order.
     */
    method DispatchAll(ready: seq<ReadyEvent>, reactions: seq<Reaction>)
      requires Valid() && |reactions| == |ready|
      requires ReadyEntriesRegistered(listeners, ready)
      requires ids.value + |AllAdds(reactions)| < Uint64Modulus
      modifies this, ids
      ensures Valid()
      ensures dispatched == old(dispatched) + Dispatches(old(listeners), ready)
      ensures ids.value == old(ids.value) + |AllAdds(reactions)|
      ensures listeners == AfterDispatches(old(listeners), old(ids.value), ready, reactions, |ready|)
    {
      ghost var start := listeners;
      ghost var first := ids.value;
      var i := 0;
      while i < |ready|
        invariant 0 <= i <= |ready|
        invariant Valid()
        invariant forall k :: k in start ==> k < first
        invariant first + |AllAdds(reactions[..i])| <= Uint64Modulus
        invariant ids.value == first + |AllAdds(reactions[..i])|
        invariant listeners == AfterDispatches(start, first, ready, reactions, i)
        invariant dispatched == old(dispatched) + Dispatches(start, ready[..i])
      {
        DispatchNext(start, first, old(dispatched), ready, reactions, i);
        i := i + 1;
      }
      assert ready[..|ready|] == ready && reactions[..|reactions|] == reactions;
    }

    /**
     * The body of the dispatch loop: the `i`-th ready entry is dispatched, and the state is the
     * next step of the pass.
     */
    method DispatchNext(ghost start: map<Uint64, EntryData>, ghost first: nat, ghost earlier: seq<Dispatch>,
                        ready: seq<ReadyEvent>, reactions: seq<Reaction>, i: nat)
      requires Valid() && |reactions| == |ready| && i < |ready|
      requires ReadyEntriesRegistered(start, ready)
      requires forall k :: k in start ==> k < first
      requires first + |AllAdds(reactions)| < Uint64Modulus
      requires ids.value == first + |AllAdds(reactions[..i])|
      requires listeners == AfterDispatches(start, first, ready, reactions, i)
      requires dispatched == earlier + Dispatches(start, ready[..i])
      modifies this, ids
      ensures Valid()
      ensures ids.value == first + |AllAdds(reactions[..i + 1])|
      ensures listeners == AfterDispatches(start, first, ready, reactions, i + 1)
      ensures dispatched == earlier + Dispatches(start, ready[..i + 1])
    {
      AllAddsSnoc(reactions, i);
      AllAddsPrefix(reactions, i + 1);
      PendingEntryUntouched(start, first, ready, reactions, i);
      ghost var before, next := listeners, ids.value;
      DispatchOne(ready[i], reactions[i]);
      AfterDispatchesUnfold(start, first, ready, reactions, i);
      DispatchedAsUnfolded(listeners, before, next, start, first, ready, reactions, i);
      DispatchesSnoc(start, ready, i);
      assert dispatched == (earlier + Dispatches(start, ready[..i])) + [Dispatch(ready[i].id, EpollEventToActivityStatus(ready[i].mask), start[ready[i].id].fd)];
    }

    /**
     * `wait_for_and_distpatch_events`: waits with no timeout for at most 1024 ready entries. If the
     * wait fails, throws "Failed to wait for events" and changes nothing. Otherwise calls the
     * handler of each ready entry once, in reported order, with the converted status and the
     * entry's descriptor; registers what the handlers add under fresh ids; and erases exactly the
     * entries whose handler stopped listening.
     */
    method WaitForAndDispatchEvents(waitOutcomes: seq<CallOutcome>, ready: seq<ReadyEvent>, reactions: seq<Reaction>)
      returns (r: Result<(), Error>, timeout: int)
      requires Valid()
      requires exists i :: 0 <= i < |waitOutcomes| && !Interrupted(waitOutcomes[i])
      requires forall i :: 0 <= i < |waitOutcomes| ==> waitOutcomes[i].result == -1 || waitOutcomes[i].result == |ready|
      requires |ready| <= MaxEvents && |reactions| == |ready|
      requires ReadyEntriesRegistered(listeners, ready)
      requires ids.value + |AllAdds(reactions)| < Uint64Modulus
      modifies this, ids
      ensures timeout == InfiniteTimeout
      ensures Valid()
      ensures var last := waitOutcomes[FirstStop(waitOutcomes)];
        r.Failure? <==> last.result == -1
      ensures r.Failure? ==>
        && r.error == SystemError("Failed to wait for events", waitOutcomes[FirstStop(waitOutcomes)].errno)
        && listeners == old(listeners) && ids.value == old(ids.value) && dispatched == old(dispatched)
      ensures r.Success? ==>
        && dispatched == old(dispatched) + Dispatches(old(listeners), ready)
        && ids.value == old(ids.value) + |AllAdds(reactions)|
        && listeners == AfterDispatches(old(listeners), old(ids.value), ready, reactions, |ready|)
    {
      timeout := InfiniteTimeout;
      var waited := WaitForEvents(waitOutcomes);
      if waited.Failure? {
        return Failure(waited.error), timeout;
      }
      DispatchAll(ready, reactions);
      r := Success(());
    }
  }

  // ---------------------------------------------------------------------------------------------
  // Lemmas about a pass

  lemma {:induction false} NewEntriesSnoc(first: nat, fds: seq<FD.FdRef>, j: nat)
    requires j < |fds| && first + |fds| <= Uint64Modulus
    ensures NewEntries(first, fds[..j + 1]) == NewEntries(first, fds[..j])[first + j := EntryData(first + j, fds[j])]
  {
    assert fds[..j + 1][..j] == fds[..j];
  }

  /** Registering `fds` creates exactly the ids `first`, `first + 1`, ..., each with its descriptor. */
  lemma {:induction false} NewEntriesKeys(first: nat, fds: seq<FD.FdRef>)
    requires first + |fds| <= Uint64Modulus
    ensures forall k :: k in NewEntries(first, fds) <==> first <= k < first + |fds|
    ensures forall k :: k in NewEntries(first, fds) ==> NewEntries(first, fds)[k] == EntryData(k, fds[k - first])
  {
    if |fds| > 0 {
      var prefix := fds[..|fds| - 1];
      NewEntriesKeys(first, prefix);
      forall k | k in NewEntries(first, prefix)
        ensures fds[k - first] == prefix[k - first]
      {
      }
    }
  }

  lemma {:induction false} AllAddsSnoc(reactions: seq<Reaction>, n: nat)
    requires n < |reactions|
    ensures AllAdds(reactions[..n + 1]) == AllAdds(reactions[..n]) + reactions[n].adds
  {
    assert reactions[..n + 1][..n] == reactions[..n];
  }

  lemma {:induction false} AllAddsPrefix(reactions: seq<Reaction>, n: nat)
    requires n <= |reactions|
    ensures |AllAdds(reactions[..n])| <= |AllAdds(reactions)|
    decreases |reactions| - n
  {
    if n < |reactions| {
      AllAddsSnoc(reactions, n);
      AllAddsPrefix(reactions, n + 1);
    } else {
      assert reactions[..n] == reactions;
    }
  }

  lemma {:induction false} StoppedSnoc(ready: seq<ReadyEvent>, reactions: seq<Reaction>, n: nat)
    requires |reactions| == |ready| && n < |ready|
    ensures Stopped(ready[..n + 1], reactions[..n + 1])
         == Stopped(ready[..n], reactions[..n]) + (if reactions[n].stopListening then {ready[n].id} else {})
  {
    var a := Stopped(ready[..n + 1], reactions[..n + 1]);
    var b := Stopped(ready[..n], reactions[..n]) + (if reactions[n].stopListening then {ready[n].id} else {});
    forall k | k in a
      ensures k in b
    {
      var i :| 0 <= i < n + 1 && reactions[..n + 1][i].stopListening && ready[..n + 1][i].id == k;
      if i < n {
        assert reactions[..n][i].stopListening && ready[..n][i].id == k;
      }
    }
    forall k | k in b
      ensures k in a
    {
      if k in Stopped(ready[..n], reactions[..n]) {
        var i :| 0 <= i < n && reactions[..n][i].stopListening && ready[..n][i].id == k;
        assert reactions[..n + 1][i].stopListening && ready[..n + 1][i].id == k;
      } else {
        assert reactions[..n + 1][n].stopListening && ready[..n + 1][n].id == k;
      }
    }
  }

  lemma {:induction false} DispatchesSnoc(listeners: map<Uint64, EntryData>, ready: seq<ReadyEvent>, n: nat)
    requires n < |ready| && forall i :: 0 <= i < |ready| ==> ready[i].id in listeners
    ensures Dispatches(listeners, ready[..n + 1]) == Dispatches(listeners, ready[..n])
      + [Dispatch(ready[n].id, EpollEventToActivityStatus(ready[n].mask), listeners[ready[n].id].fd)]
  {
    assert ready[..n + 1][..n] == ready[..n];
  }

  /**
   * After `n` dispatches of a pass that began with `start` and the counter at `first`, an id is
   * registered exactly when it was registered at the start and its handler did not stop
   * listening, or it is one of the ids handed out to the handlers' `add` calls.
   */
  lemma {:induction false} AfterDispatchesMember(start: map<Uint64, EntryData>, first: nat, ready: seq<ReadyEvent>,
                                                 reactions: seq<Reaction>, n: nat, k: Uint64)
    requires |reactions| == |ready| && n <= |ready|
    requires ReadyEntriesRegistered(start, ready)
    requires forall k :: k in start ==> k < first
    requires first + |AllAdds(reactions)| <= Uint64Modulus
    ensures k in AfterDispatches(start, first, ready, reactions, n)
        <==> (k in start && k !in Stopped(ready[..n], reactions[..n])) || first <= k < first + |AllAdds(reactions[..n])|
  {
    if n == 0 {
      assert ready[..0] == [] && reactions[..0] == [];
    } else {
      AfterDispatchesStepMember(start, first, ready, reactions, n - 1, k);
      AfterDispatchesMember(start, first, ready, reactions, n - 1, k);
      StoppedSnoc(ready, reactions, n - 1);
      AllAddsSnoc(reactions, n - 1);
      assert ready[n - 1].id in start;
    }
  }

  /**
   * After `n` dispatches, an entry registered at the start of the pass is unchanged, and a new one
   * holds the descriptor added under its id.
   */
  lemma {:induction false} AfterDispatchesValue(start: map<Uint64, EntryData>, first: nat, ready: seq<ReadyEvent>,
                                                reactions: seq<Reaction>, n: nat, k: Uint64)
    requires |reactions| == |ready| && n <= |ready|
    requires ReadyEntriesRegistered(start, ready)
    requires forall k :: k in start ==> k < first
    requires first + |AllAdds(reactions)| <= Uint64Modulus
    requires k in AfterDispatches(start, first, ready, reactions, n)
    ensures k in start ==> AfterDispatches(start, first, ready, reactions, n)[k] == start[k]
    ensures k !in start ==>
      && first <= k < first + |AllAdds(reactions[..n])|
      && AfterDispatches(start, first, ready, reactions, n)[k] == EntryData(k, AllAdds(reactions[..n])[k - first])
  {
    AfterDispatchesMember(start, first, ready, reactions, n, k);
    if n > 0 {
      AllAddsSnoc(reactions, n - 1);
      var prev := AllAdds(reactions[..n - 1]);
      var adds := reactions[n - 1].adds;
      var next := first + |prev|;
      AfterDispatchesStepMember(start, first, ready, reactions, n - 1, k);
      AfterDispatchesStepValue(start, first, ready, reactions, n - 1, k);
      AfterDispatchesMember(start, first, ready, reactions, n - 1, k);
      if next <= k < next + |adds| {
        assert (prev + adds)[k - first] == adds[k - next];
      } else {
        AfterDispatchesValue(start, first, ready, reactions, n - 1, k);
        if k !in start {
          assert (prev + adds)[k - first] == prev[k - first];
        }
      }
    }
  }

  /** Dispatch number `n + 1` of a pass: which ids it leaves registered. */
  lemma {:induction false} AfterDispatchesStepMember(start: map<Uint64, EntryData>, first: nat, ready: seq<ReadyEvent>,
                                                     reactions: seq<Reaction>, n: nat, k: Uint64)
    requires |reactions| == |ready| && n < |ready|
    requires first + |AllAdds(reactions)| <= Uint64Modulus
    ensures var next, r := first + |AllAdds(reactions[..n])|, reactions[n];
      k in AfterDispatches(start, first, ready, reactions, n + 1)
      <==> (k in AfterDispatches(start, first, ready, reactions, n) || next <= k < next + |r.adds|)
           && !(r.stopListening && k == ready[n].id)
  {
    AllAddsSnoc(reactions, n);
    AllAddsPrefix(reactions, n + 1);
    AfterDispatchMember(AfterDispatches(start, first, ready, reactions, n), first + |AllAdds(reactions[..n])|, ready[n], reactions[n], k);
  }

  /** Dispatch number `n + 1` of a pass: what a registered id holds afterwards. */
  lemma {:induction false} AfterDispatchesStepValue(start: map<Uint64, EntryData>, first: nat, ready: seq<ReadyEvent>,
                                                    reactions: seq<Reaction>, n: nat, k: Uint64)
    requires |reactions| == |ready| && n < |ready|
    requires first + |AllAdds(reactions)| <= Uint64Modulus
    requires k in AfterDispatches(start, first, ready, reactions, n + 1)
    ensures var next, r := first + |AllAdds(reactions[..n])|, reactions[n];
      && (next <= k < next + |r.adds| ==> AfterDispatches(start, first, ready, reactions, n + 1)[k] == EntryData(k, r.adds[k - next]))
      && (!(next <= k < next + |r.adds|) ==>
            && k in AfterDispatches(start, first, ready, reactions, n)
            && AfterDispatches(start, first, ready, reactions, n + 1)[k] == AfterDispatches(start, first, ready, reactions, n)[k])
  {
    AllAddsSnoc(reactions, n);
    AllAddsPrefix(reactions, n + 1);
    var next := first + |AllAdds(reactions[..n])|;
    AfterDispatchValue(AfterDispatches(start, first, ready, reactions, n), next, ready[n], reactions[n], k);
  }

  /** One dispatch: which ids it leaves registered. */
  lemma {:induction false} AfterDispatchMember(listeners: map<Uint64, EntryData>, next: nat, e: ReadyEvent, reaction: Reaction, k: Uint64)
    requires next + |reaction.adds| <= Uint64Modulus
    ensures k in AfterDispatch(listeners, next, e, reaction)
        <==> (k in listeners || next <= k < next + |reaction.adds|) && !(reaction.stopListening && k == e.id)
  {
    NewEntriesKeys(next, reaction.adds);
  }

  /** One dispatch: what a registered id holds afterwards. */
  lemma {:induction false} AfterDispatchValue(listeners: map<Uint64, EntryData>, next: nat, e: ReadyEvent, reaction: Reaction, k: Uint64)
    requires next + |reaction.adds| <= Uint64Modulus
    requires k in AfterDispatch(listeners, next, e, reaction)
    ensures next <= k < next + |reaction.adds| ==> AfterDispatch(listeners, next, e, reaction)[k] == EntryData(k, reaction.adds[k - next])
    ensures !(next <= k < next + |reaction.adds|) ==> k in listeners && AfterDispatch(listeners, next, e, reaction)[k] == listeners[k]
  {
    NewEntriesKeys(next, reaction.adds);
  }

  /** The entry of the next ready event is still the one registered when the pass began. */
  lemma {:induction false} PendingEntryUntouched(start: map<Uint64, EntryData>, first: nat, ready: seq<ReadyEvent>,
                                                 reactions: seq<Reaction>, i: nat)
    requires |reactions| == |ready| && i < |ready|
    requires ReadyEntriesRegistered(start, ready)
    requires forall k :: k in start ==> k < first
    requires first + |AllAdds(reactions)| <= Uint64Modulus
    ensures var cur := AfterDispatches(start, first, ready, reactions, i);
      ready[i].id in cur && cur[ready[i].id] == start[ready[i].id]
  {
    AfterDispatchesMember(start, first, ready, reactions, i, ready[i].id);
    AfterDispatchesValue(start, first, ready, reactions, i, ready[i].id);
  }
}
