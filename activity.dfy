/**
 * The readiness mask and the handler ids of the reactor: `activity_status` with `can_read` and
 * `can_write` (declared identically in src/os_services/fd/activity_event.hpp and
 * src/os_services/fd/activity_monitor.hpp), and `event_handler_id` with `next()`.
 */
module Activity {

  /**
   * An `activity_status`: a scoped enumeration over `int`. Any `int` can be cast to it, so the
   * model keeps the integer; the four named values are the constants below.
   */
  datatype ActivityStatus = ActivityStatus(bits: int)

  const None: ActivityStatus := ActivityStatus(0)
  const Read: ActivityStatus := ActivityStatus(1)
  const Write: ActivityStatus := ActivityStatus(2)
  const ReadOrWrite: ActivityStatus := ActivityStatus(3)

  /** One of the four enumerators. */
  predicate IsNamed(s: ActivityStatus)
  {
    s == None || s == Read || s == Write || s == ReadOrWrite
  }

  /**
   * `can_read`: bit 0 of the value is set. On two's complement integers bit 0 is the Euclidean
   * remainder by 2, which is what `%` means here.
   */
  predicate CanRead(s: ActivityStatus)
  {
    s.bits % 2 == 1
  }

  /** `can_write`: bit 1 of the value is set (the floor of half the value, taken modulo 2). */
  predicate CanWrite(s: ActivityStatus)
  {
    (s.bits / 2) % 2 == 1
  }

  /** `can_read` holds exactly for `read` and `read_or_write` among the enumerators. */
  lemma {:induction false} CanReadExactly(s: ActivityStatus)
    requires IsNamed(s)
    ensures CanRead(s) <==> s == Read || s == ReadOrWrite
  {
  }

  /** `can_write` holds exactly for `write` and `read_or_write` among the enumerators. */
  lemma {:induction false} CanWriteExactly(s: ActivityStatus)
    requires IsNamed(s)
    ensures CanWrite(s) <==> s == Write || s == ReadOrWrite
  {
  }

  /**
   * An enumerator is determined by the two tests: `read_or_write` is the one where both hold, and
   * `none` the one where neither does.
   */
  lemma {:induction false} NamedStatusDecided(s: ActivityStatus)
    requires IsNamed(s)
    ensures s == ReadOrWrite <==> CanRead(s) && CanWrite(s)
    ensures s == None <==> !CanRead(s) && !CanWrite(s)
    ensures s == FromFlags(CanRead(s), CanWrite(s))
  {
  }

  /** The enumerator with the given read and write bits. */
  function FromFlags(read: bool, write: bool): (s: ActivityStatus)
    ensures IsNamed(s)
    ensures CanRead(s) == read && CanWrite(s) == write
  {
    ActivityStatus((if read then 1 else 0) + (if write then 2 else 0))
  }

  /**
   * For any value at all, the two tests read the two low bits: the value modulo 4 is the read bit
   * plus twice the write bit. So `read_or_write` (3) is `read` (1) together with `write` (2).
   */
  lemma {:induction false} LowBits(s: ActivityStatus)
    ensures s.bits % 4 == FromFlags(CanRead(s), CanWrite(s)).bits
  {
    var q, r := s.bits / 4, s.bits % 4;
    HalfUnique(s.bits, 2 * q + r / 2, r % 2);
    HalfUnique(2 * q + r / 2, q, r / 2);
  }

  /** Halving: the quotient and remainder by 2 are the unique ones. */
  lemma {:induction false} HalfUnique(x: int, q: int, r: int)
    requires x == 2 * q + r && 0 <= r < 2
    ensures x / 2 == q && x % 2 == r
  {
  }

  // ---------------------------------------------------------------------------------------------
  // Handler ids

  const Uint64Modulus: int := 0x1_0000_0000_0000_0000
  type Uint64 = x: int | 0 <= x < Uint64Modulus

  /** An `event_handler_id`: a `uint64_t` that `next()` advances. */
  class EventHandlerId {
    var value: Uint64

    /** The default constructor: value 0. */
    constructor Default()
      ensures value == 0
    {
      value := 0;
    }

    /** The explicit constructor: the value is stored unchanged. */
    constructor (v: Uint64)
      ensures value == v
    {
      value := v;
    }

    /**
     * `next()`: returns a copy of the id as it was and increments the stored value by one, modulo
     * 2^64 as `uint64_t` does.
     */
    method Next() returns (ret: EventHandlerId)
      modifies this
      ensures fresh(ret) && ret.value == old(value)
      ensures value == NextValue(old(value))
    {
      ret := new EventHandlerId(value);
      value := NextValue(value);
    }

    /** `operator==` and `operator!=`: ids compare by value. */
    predicate Equals(other: EventHandlerId)
      reads this, other
      ensures Equals(other) <==> value == other.value
    {
      value == other.value
    }
  }

  /** The value after one `next()`: one more, wrapping to 0 after the largest `uint64_t`. */
  function NextValue(v: Uint64): (w: Uint64)
    ensures v < Uint64Modulus - 1 ==> w == v + 1
    ensures v == Uint64Modulus - 1 ==> w == 0
  {
    (v + 1) % Uint64Modulus
  }

  /** The values `n` successive `next()` calls return, starting from `v`. */
  function IdsHandedOut(v: Uint64, n: nat): (ids: seq<Uint64>)
    ensures |ids| == n
    ensures n > 0 ==> ids[0] == v
    decreases n
  {
    if n == 0 then [] else [v] + IdsHandedOut(NextValue(v), n - 1)
  }

  /**
   * As long as the counter does not pass the largest `uint64_t`, successive `next()` calls hand out
   * consecutive values, so they strictly increase and never repeat.
   */
  lemma {:induction false} IdsIncrease(v: Uint64, n: nat)
    requires v + n <= Uint64Modulus
    decreases n
    ensures forall i :: 0 <= i < n ==> IdsHandedOut(v, n)[i] == v + i
    ensures forall i, j :: 0 <= i < j < n ==> IdsHandedOut(v, n)[i] < IdsHandedOut(v, n)[j]
  {
    if n > 1 {
      assert NextValue(v) == v + 1;
      IdsIncrease(NextValue(v), n - 1);
    }
  }

  /** The counter value after `n` calls of `next()`. */
  function Advance(v: Uint64, n: nat): (w: Uint64)
    ensures v + n < Uint64Modulus ==> w == v + n
    decreases n
  {
    if n == 0 then v else Advance(NextValue(v), n - 1)
  }
}
