/**
 * Descriptor handles and their owners, as in src/os_services/fd/file_descriptor.hpp:
 * `tagged_file_descriptor_ref` is an `int` handle with -1 as the "no descriptor" sentinel and a
 * tag telling what kind of descriptor it is; `file_descriptor_deleter` closes a handle; and the
 * owning `tagged_file_descriptor` is a `std::unique_ptr` that manages the ref itself.
 */
module FileDescriptors {
  import opened Wrappers

  type Int32 = x: int | -0x8000_0000 <= x <= 0x7FFF_FFFF

  /** The handle of a ref that refers to no descriptor. */
  const NullHandle: Int32 := -1

  /** The tag types: what kind of descriptor a ref refers to. */
  datatype Tag =
    | GenericFd | InputFd | OutputFd | EventFd | ConnectedSocket | EpollFd | PidFd | MemFd

  /**
   * The conversions declared through `enabled_fd_conversions` specialisations: a connected socket
   * and an eventfd may be used where an input or an output descriptor is expected.
   */
  predicate DeclaredConversion(from: Tag, to: Tag)
  {
    (from == ConnectedSocket || from == EventFd) && (to == InputFd || to == OutputFd)
  }

  /** A `tagged_file_descriptor_ref`. */
  datatype FdRef = FdRef(tag: Tag, handle: Int32)
  {
    /** `native_handle()`, `operator*` and the conversion to `int`: the handle itself. */
    function NativeHandle(): Int32 { handle }

    /** `is_valid()`, and `!= nullptr` in either operand order. */
    predicate IsValid() { handle != NullHandle }

    /** `== nullptr`, in either operand order. */
    predicate IsNull() { handle == NullHandle }
  }

  /** The default constructor, and the constructor from `nullptr`: a ref to no descriptor. */
  function NullRef(tag: Tag): (r: FdRef)
    ensures r.tag == tag && r.NativeHandle() == -1
    ensures r.IsNull() && !r.IsValid()
  {
    FdRef(tag, NullHandle)
  }

  /** The constructor from an `int`: the handle is stored unchanged. */
  function RefTo(tag: Tag, fd: Int32): (r: FdRef)
    ensures r.tag == tag && r.NativeHandle() == fd
    ensures r.IsValid() <==> fd != -1
    ensures r.IsNull() <==> fd == -1
  {
    FdRef(tag, fd)
  }

  /**
   * Conversion to a ref of another tag, which exists only for the declared pairs: the handle is
   * kept.
   */
  function Convert(r: FdRef, to: Tag): (c: FdRef)
    requires DeclaredConversion(r.tag, to)
    ensures c.tag == to && c.NativeHandle() == r.NativeHandle()
    ensures c.IsValid() <==> r.IsValid()
  {
    FdRef(to, r.handle)
  }

  /** Two refs of one tag compare equal exactly when their handles do; nullptr is the ref -1. */
  lemma RefEquality(a: FdRef, b: FdRef)
    requires a.tag == b.tag
    ensures a == b <==> a.NativeHandle() == b.NativeHandle()
    ensures a.IsNull() <==> a == NullRef(a.tag)
    ensures a.IsNull() <==> !a.IsValid()
  {
  }

  /** `file_descriptor_deleter`: the handle it closes, if any. It closes only a valid handle. */
  function DeleterCloses(r: FdRef): (closed: Option<Int32>)
    ensures closed.Some? <==> r.IsValid()
    ensures closed.Some? ==> closed.value == r.NativeHandle()
  {
    if r.handle != NullHandle then Some(r.handle) else None
  }

  function OptionToSeq<T>(o: Option<T>): (s: seq<T>)
    ensures |s| <= 1
    ensures o.Some? ==> s == [o.value]
    ensures o.None? ==> s == []
  {
    if o.Some? then [o.value] else []
  }

  /** The handles closed by a sequence of deleter calls, in order. */
  function ClosedBy(calls: seq<FdRef>): (closed: seq<Int32>)
    ensures |closed| <= |calls|
    ensures forall h :: h in closed ==> exists i :: 0 <= i < |calls| && calls[i].IsValid() && calls[i].handle == h
  {
    if |calls| == 0 then [] else ClosedBy(calls[..|calls| - 1]) + OptionToSeq(DeleterCloses(calls[|calls| - 1]))
  }

  lemma ClosedByAppend(calls: seq<FdRef>, r: FdRef)
    ensures ClosedBy(calls + [r]) == ClosedBy(calls) + OptionToSeq(DeleterCloses(r))
  {
    assert (calls + [r])[..|calls|] == calls;
  }

  /**
   * Whether `reset()` hands the old ref to the deleter, as written: `std::unique_ptr::reset` tests
   * the old managed ref in a boolean context, and for this ref type that goes through the `int`
   * conversion, so the deleter is called whenever the handle is not 0.
   */
  function ResetCallsDeleterAsWritten(old_held: FdRef): (called: bool)
    ensures called <==> old_held.NativeHandle() != 0
  {
    old_held.NativeHandle() as int != 0
  }

  /** Whether `reset()` hands the old ref to the deleter, as evidently intended: when it is not nullptr. */
  function ResetCallsDeleter(old_held: FdRef): (called: bool)
    ensures called <==> !old_held.IsNull()
  {
    old_held != NullRef(old_held.tag)
  }

  /** As written, resetting an owner of descriptor 0 (standard input) closes nothing. */
  lemma ResetLeaksDescriptorZero(t: Tag)
    ensures RefTo(t, 0).IsValid()
    ensures !ResetCallsDeleterAsWritten(RefTo(t, 0))
    ensures ResetCallsDeleter(RefTo(t, 0)) && DeleterCloses(RefTo(t, 0)) == Some(0)
  {
  }

  /**
   * What `reset()` closes as written: a valid old handle other than 0. The deleter skips -1 and
   * the boolean test skips 0.
   */
  function ResetClosesAsWritten(old_held: FdRef): (closed: seq<Int32>)
    ensures closed == (if old_held.NativeHandle() !in {0, -1} then [old_held.NativeHandle()] else [])
  {
    OptionToSeq(if ResetCallsDeleterAsWritten(old_held) then DeleterCloses(old_held) else None)
  }

  /** Apart from descriptor 0, the written test closes exactly what the intended one does. */
  lemma {:induction false} ResetAsWrittenAgreesElsewhere(r: FdRef)
    requires r.NativeHandle() != 0
    ensures OptionToSeq(if ResetCallsDeleterAsWritten(r) then DeleterCloses(r) else None)
         == OptionToSeq(if ResetCallsDeleter(r) then DeleterCloses(r) else None)
  {
    if r.IsNull() {
      assert DeleterCloses(r) == None;
    }
  }

  /**
   * A `tagged_file_descriptor`: the ref it holds and, as the record of its effects, the refs it
   * has handed to its deleter, in order.
   */
  class FdOwner {
    var held: FdRef
    var deleterCalls: seq<FdRef>

    /** Takes ownership of `r`. */
    constructor (r: FdRef)
      ensures held == r && deleterCalls == []
    {
      held := r;
      deleterCalls := [];
    }

    /** The handles this owner has closed so far. */
    function Closed(): seq<Int32>
      reads this
    {
      ClosedBy(deleterCalls)
    }

    /** `get()`: the held ref, ownership kept. */
    function Get(): (r: FdRef)
      reads this
      ensures r == held
    {
      held
    }

    /**
     * `== nullptr`: `std::unique_ptr` compares the held ref with a value-initialised one, that is
     * with the null ref of the same tag.
     */
    predicate IsEmpty()
      reads this
      ensures IsEmpty() <==> held == NullRef(held.tag)
      ensures IsEmpty() <==> held.NativeHandle() == -1
    {
      held.IsNull()
    }

    /**
     * `reset()`, as written: the owner becomes empty and the old ref goes to the deleter unless its
     * handle is 0.
     */
    method ResetAsWritten()
      modifies this
      ensures held == NullRef(old(held).tag) && IsEmpty()
      ensures deleterCalls == old(deleterCalls) + if ResetCallsDeleterAsWritten(old(held)) then [old(held)] else []
      ensures Closed() == old(Closed()) + ResetClosesAsWritten(old(held))
    {
      var oldHeld := held;
      held := NullRef(held.tag);
      if ResetCallsDeleterAsWritten(oldHeld) {
        deleterCalls := deleterCalls + [oldHeld];
        ClosedByAppend(old(deleterCalls), oldHeld);
      }
    }

    /**
     * `reset()`, as evidently intended: the owner becomes empty and a non-null old ref is handed to
     * the deleter exactly once, which closes it.
     */
    method Reset()
      modifies this
      ensures held == NullRef(old(held).tag) && IsEmpty()
      ensures deleterCalls == old(deleterCalls) + if old(held).IsValid() then [old(held)] else []
      ensures Closed() == old(Closed()) + OptionToSeq(DeleterCloses(old(held)))
    {
      var oldHeld := held;
      held := NullRef(held.tag);
      if ResetCallsDeleter(oldHeld) {
        deleterCalls := deleterCalls + [oldHeld];
        ClosedByAppend(old(deleterCalls), oldHeld);
      }
    }

    /** `release()`: gives up ownership without closing; the owner becomes empty. */
    method Release() returns (r: FdRef)
      modifies this
      ensures r == old(held) && held == NullRef(r.tag) && IsEmpty()
      ensures deleterCalls == old(deleterCalls)
    {
      r := held;
      held := NullRef(held.tag);
    }

    /** The destructor: a held ref that is not nullptr goes to the deleter, which closes it. */
    method Destroy()
      modifies this
      ensures held == old(held)
      ensures deleterCalls == old(deleterCalls) + if held.IsValid() then [held] else []
      ensures Closed() == old(Closed()) + OptionToSeq(DeleterCloses(held))
    {
      if held != NullRef(held.tag) {
        deleterCalls := deleterCalls + [held];
        ClosedByAppend(old(deleterCalls), held);
      }
    }
  }
}

/**
 * The older revision, src/utils/file_descriptor.hpp: the same ref with an `operator bool` equal to
 * `is_valid()`, and a deleter that closes whatever handle it receives.
 */
module LegacyFileDescriptors {
  import opened Wrappers
  import FD = FileDescriptors

  datatype LegacyFdRef = LegacyFdRef(tag: FD.Tag, handle: FD.Int32)
  {
    function NativeHandle(): FD.Int32 { handle }

    predicate IsValid() { handle != -1 }

    /** `== nullptr`, in either operand order. */
    predicate IsNull() { handle == -1 }

    /** `operator bool`. */
    predicate AsBool()
      ensures AsBool() <==> IsValid()
    {
      IsValid()
    }
  }

  /** The default constructor and the constructor from `nullptr`. */
  function NullRef(tag: FD.Tag): (r: LegacyFdRef)
    ensures r.NativeHandle() == -1 && r.IsNull() && !r.AsBool()
  {
    LegacyFdRef(tag, -1)
  }

  /** The constructor from an `int`. */
  function RefTo(tag: FD.Tag, fd: FD.Int32): (r: LegacyFdRef)
    ensures r.tag == tag && r.NativeHandle() == fd
    ensures r.AsBool() <==> !r.IsNull()
  {
    LegacyFdRef(tag, fd)
  }

  /**
   * Conversion to another tag, for the pairs `enabled` declares; the handle is kept. The older
   * revision's `enabled_fd_conversions` specialisations are not part of this model, so the
   * declared pairs are a parameter.
   */
  function Convert(r: LegacyFdRef, to: FD.Tag, enabled: (FD.Tag, FD.Tag) -> bool): (c: LegacyFdRef)
    requires enabled(r.tag, to)
    ensures c.tag == to && c.NativeHandle() == r.NativeHandle()
  {
    LegacyFdRef(to, r.handle)
  }

  /** The older deleter closes the handle it receives, -1 included. */
  function DeleterCloses(r: LegacyFdRef): (closed: FD.Int32)
    ensures closed == r.NativeHandle()
  {
    r.handle
  }

  /**
   * Through the owner the two deleters close the same handles: `std::unique_ptr` hands the older
   * deleter only a ref whose `operator bool` holds, which is exactly when the newer deleter closes.
   */
  lemma {:induction false} OwnerClosesAgree(r: LegacyFdRef)
    ensures var closedOld := if r.AsBool() then Some(DeleterCloses(r)) else None;
      closedOld == FD.DeleterCloses(FD.FdRef(r.tag, r.handle))
  {
  }

  /** On its own, the older deleter closes -1 where the newer one does nothing. */
  lemma DeletersDifferOnNull(t: FD.Tag)
    ensures DeleterCloses(NullRef(t)) == -1
    ensures FD.DeleterCloses(FD.NullRef(t)) == None
  {
  }

  /** The older `tagged_file_descriptor`: a `std::unique_ptr` over the older ref and deleter. */
  class LegacyFdOwner {
    var held: LegacyFdRef
    var closed: seq<FD.Int32>

    constructor (r: LegacyFdRef)
      ensures held == r && closed == []
    {
      held := r;
      closed := [];
    }

    /** `== nullptr`: the held ref equals the null ref of the same tag. */
    predicate IsEmpty()
      reads this
      ensures IsEmpty() <==> held == NullRef(held.tag)
      ensures IsEmpty() <==> held.NativeHandle() == -1
    {
      held.IsNull()
    }

    /** `reset()`: the owner becomes empty; the old ref is closed when its `operator bool` holds. */
    method Reset()
      modifies this
      ensures held == NullRef(old(held).tag) && IsEmpty()
      ensures closed == old(closed) + if old(held).IsValid() then [old(held).handle] else []
    {
      var oldHeld := held;
      held := NullRef(held.tag);
      if oldHeld.AsBool() {
        closed := closed + [DeleterCloses(oldHeld)];
      }
    }

    /** `release()`: gives up ownership without closing. */
    method Release() returns (r: LegacyFdRef)
      modifies this
      ensures r == old(held) && held == NullRef(r.tag) && closed == old(closed)
    {
      r := held;
      held := NullRef(held.tag);
    }

    /** The destructor: a held ref that is not nullptr is closed. */
    method Destroy()
      modifies this
      ensures held == old(held)
      ensures closed == old(closed) + if held.IsValid() then [held.handle] else []
    {
      if !held.IsNull() {
        closed := closed + [DeleterCloses(held)];
      }
    }
  }
}
