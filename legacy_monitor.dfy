/**
 * The older dispatch pass, src/os_services/fd/fd_activity_monitor.cpp: `activity_monitor`'s
 * `wait_for_and_distpatch_events` polls the epoll instance without waiting, calls the callback
 * each ready entry points to, and deletes the callbacks that ask for their entry to be removed.
 *
 * The kernel is not run: the outcomes of the `epoll_wait` calls, the ready entries it reports
 * (by the callback they point to) and the action each callback returns are given.
 */
module LegacyActivityMonitor {
  import opened Wrappers
  import opened Io
  import opened Activity
  import Epoll

  /** The epoll timeout of this pass: return at once. */
  const PollTimeout: int := 0

  /**
   * The `post_process_action` a callback returns. Only `remove_entry_and_close_fd` is looked at;
   * every other value of the enumeration is `Keep` here.
   */
  datatype PostProcessAction = RemoveEntryAndCloseFd | Keep

  /** A ready entry as `epoll_wait` reports it: the callback it points to, and the epoll mask. */
  datatype ReadyCallback = ReadyCallback(callback: nat, mask: nat)

  /** One callback call: which callback, with which status. */
  datatype Invocation = Invocation(callback: nat, status: ActivityStatus)

  /** The callback calls a pass makes over `ready`: one per entry, in reported order. */
  function Invocations(ready: seq<ReadyCallback>): (calls: seq<Invocation>)
    ensures |calls| == |ready|
    ensures forall i :: 0 <= i < |ready| ==> calls[i].callback == ready[i].callback
    ensures forall i :: 0 <= i < |ready| ==> calls[i].status == Epoll.EpollEventToActivityStatus(ready[i].mask)
  {
    if |ready| == 0 then []
    else
      var e := ready[|ready| - 1];
      Invocations(ready[..|ready| - 1]) + [Invocation(e.callback, Epoll.EpollEventToActivityStatus(e.mask))]
  }

  /**
   * The callbacks a pass deletes, in order: exactly those whose call returned
   * `remove_entry_and_close_fd`.
   */
  function Deletions(ready: seq<ReadyCallback>, actions: seq<PostProcessAction>): (gone: seq<nat>)
    requires |actions| == |ready|
    ensures |gone| <= |ready|
    ensures forall c :: c in gone <==> exists i :: 0 <= i < |ready| && ready[i].callback == c && actions[i] == RemoveEntryAndCloseFd
  {
    if |ready| == 0 then []
    else
      var n := |ready| - 1;
      var earlier := Deletions(ready[..n], actions[..n]);
      assert forall i :: 0 <= i < n ==> ready[..n][i] == ready[i] && actions[..n][i] == actions[i];
      if actions[n] == RemoveEntryAndCloseFd then earlier + [ready[n].callback] else earlier
  }

  /** The ready entries point to live callbacks, and each is reported once. */
  predicate ReadyCallbacksLive(callbacks: set<nat>, ready: seq<ReadyCallback>)
  {
    && (forall i :: 0 <= i < |ready| ==> ready[i].callback in callbacks)
    && (forall i, j :: 0 <= i < j < |ready| ==> ready[i].callback != ready[j].callback)
  }

  /** The callbacks registered with the monitor, and what passes have done with them. */
  class FdActivityMonitor {
    var callbacks: set<nat>
    /** The callback calls made so far, in order. */
    var invoked: seq<Invocation>
    /** The callbacks deleted so far, in order. */
    var deleted: seq<nat>

    constructor (callbacks: set<nat>)
      ensures this.callbacks == callbacks && invoked == [] && deleted == []
    {
      this.callbacks := callbacks;
      invoked := [];
      deleted := [];
    }

    /**
     * `wait_for_and_distpatch_events`: polls for at most 1024 ready entries with a zero timeout.
     * If the wait fails, throws "Failed to wait for events" and changes nothing. Otherwise calls
     * each ready callback once, in reported order, with the converted status, and deletes exactly
     * the callbacks that return `remove_entry_and_close_fd`; the others stay for later passes.
     */
    method WaitForAndDispatchEvents(waitOutcomes: seq<CallOutcome>, ready: seq<ReadyCallback>,
                                    actions: seq<PostProcessAction>)
      returns (r: Result<(), Error>, timeout: int)
      requires exists i :: 0 <= i < |waitOutcomes| && !Interrupted(waitOutcomes[i])
      requires forall i :: 0 <= i < |waitOutcomes| ==> waitOutcomes[i].result == -1 || waitOutcomes[i].result == |ready|
      requires |ready| <= Epoll.MaxEvents && |actions| == |ready|
      requires ReadyCallbacksLive(callbacks, ready)
      modifies this
      ensures timeout == PollTimeout
      ensures var last := waitOutcomes[FirstStop(waitOutcomes)];
        r.Failure? <==> last.result == -1
      ensures r.Failure? ==>
        && r.error == SystemError("Failed to wait for events", waitOutcomes[FirstStop(waitOutcomes)].errno)
        && callbacks == old(callbacks) && invoked == old(invoked) && deleted == old(deleted)
      ensures r.Success? ==>
        && invoked == old(invoked) + Invocations(ready)
        && deleted == old(deleted) + Deletions(ready, actions)
        && callbacks == old(callbacks) - (set c | c in Deletions(ready, actions))
    {
      timeout := PollTimeout;
      var waited := Epoll.WaitForEvents(waitOutcomes);
      if waited.Failure? {
        return Failure(waited.error), timeout;
      }
      ghost var start, invoked0, deleted0 := callbacks, invoked, deleted;
      var i := 0;
      while i < |ready|
        invariant 0 <= i <= |ready|
        invariant invoked == invoked0 + Invocations(ready[..i])
        invariant deleted == deleted0 + Deletions(ready[..i], actions[..i])
        invariant callbacks == start - (set c | c in Deletions(ready[..i], actions[..i]))
      {
        InvocationsSnoc(ready, i);
        DeletionsSnoc(ready, actions, i);
        var call := Invocation(ready[i].callback, Epoll.EpollEventToActivityStatus(ready[i].mask));
        AppendOne(invoked0, Invocations(ready[..i]), call);
        invoked := invoked + [call];
        if actions[i] == RemoveEntryAndCloseFd {
          RemovingOneMore(start, Deletions(ready[..i], actions[..i]), ready[i].callback);
          AppendOne(deleted0, Deletions(ready[..i], actions[..i]), ready[i].callback);
          callbacks := callbacks - {ready[i].callback};
          deleted := deleted + [ready[i].callback];
        }
        i := i + 1;
      }
      assert ready[..|ready|] == ready && actions[..|actions|] == actions;
      r := Success(());
    }
  }

  /** Appending one element after two sequences. */
  lemma AppendOne<T>(before: seq<T>, done: seq<T>, x: T)
    ensures (before + done) + [x] == before + (done + [x])
  {
  }

  /** Removing one more callback from what is left is removing it with the others. */
  lemma RemovingOneMore(start: set<nat>, d: seq<nat>, x: nat)
    ensures start - (set c | c in d) - {x} == start - (set c | c in d + [x])
  {
    assert (set c | c in d + [x]) == (set c | c in d) + {x};
  }

  lemma {:induction false} InvocationsSnoc(ready: seq<ReadyCallback>, n: nat)
    requires n < |ready|
    ensures Invocations(ready[..n + 1]) == Invocations(ready[..n]) + [Invocation(ready[n].callback, Epoll.EpollEventToActivityStatus(ready[n].mask))]
  {
    assert ready[..n + 1][..n] == ready[..n];
  }

  lemma {:induction false} DeletionsSnoc(ready: seq<ReadyCallback>, actions: seq<PostProcessAction>, n: nat)
    requires |actions| == |ready| && n < |ready|
    ensures Deletions(ready[..n + 1], actions[..n + 1])
         == Deletions(ready[..n], actions[..n]) + (if actions[n] == RemoveEntryAndCloseFd then [ready[n].callback] else [])
  {
    assert ready[..n + 1][..n] == ready[..n] && actions[..n + 1][..n] == actions[..n];
  }

  /**
   * A pass deletes each callback at most once: the ready entries are distinct, so no callback is
   * deleted twice, and a deleted callback was registered when the pass began.
   */
  lemma {:induction false} DeletionsOnce(callbacks: set<nat>, ready: seq<ReadyCallback>, actions: seq<PostProcessAction>)
    requires |actions| == |ready|
    requires ReadyCallbacksLive(callbacks, ready)
    ensures forall i, j :: 0 <= i < j < |Deletions(ready, actions)| ==> Deletions(ready, actions)[i] != Deletions(ready, actions)[j]
    ensures forall c :: c in Deletions(ready, actions) ==> c in callbacks
  {
    if |ready| > 0 {
      var n := |ready| - 1;
      assert ReadyCallbacksLive(callbacks, ready[..n]);
      DeletionsOnce(callbacks, ready[..n], actions[..n]);
      var earlier := Deletions(ready[..n], actions[..n]);
      forall c | c in earlier
        ensures c != ready[n].callback
      {
        var i :| 0 <= i < n && ready[..n][i].callback == c && actions[..n][i] == RemoveEntryAndCloseFd;
        assert ready[i].callback == c;
      }
      var gone := Deletions(ready, actions);
      if actions[n] == RemoveEntryAndCloseFd {
        assert gone == earlier + [ready[n].callback];
        forall i, j | 0 <= i < j < |gone|
          ensures gone[i] != gone[j]
        {
          if j == |earlier| {
            assert gone[i] == earlier[i] && gone[i] in earlier;
          } else {
            assert gone[i] == earlier[i] && gone[j] == earlier[j];
          }
        }
      } else {
        assert gone == earlier;
      }
    }
  }
}
