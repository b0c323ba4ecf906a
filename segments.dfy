/**
 * The integer-range utilities of src/utils/utils.hpp: `flat_set` (a sorted copy of a range of
 * values), `inclusive_integral_range`, `trim` and `for_each_disjoint_segment`, which the process
 * manager uses to find the descriptor ranges to close around the ones a child keeps.
 * Values are `unsigned int`s (the type of `close_range`'s arguments).
 */
module Segments {

  const MaxUnsigned: nat := 0xFFFF_FFFF

  type Unsigned = x: nat | x <= MaxUnsigned

  /** An `inclusive_integral_range`: every value v with startAt <= v <= stopAt. */
  datatype Range = Range(startAt: Unsigned, stopAt: Unsigned)
  {
    predicate Contains(v: int) { startAt <= v <= stopAt }
  }

  predicate Sorted(s: seq<Unsigned>)
  {
    forall i, j :: 0 <= i < j < |s| ==> s[i] <= s[j]
  }

  predicate StrictlyIncreasing(s: seq<Unsigned>)
  {
    forall i, j :: 0 <= i < j < |s| ==> s[i] < s[j]
  }

  // ---------------------------------------------------------------------------------------------
  // flat_set

  /**
   * A `flat_set`: its constructor copies the values it is given into its own storage and sorts
   * them in place. Duplicates are kept.
   */
  class FlatSet {
    const values: array<Unsigned>

    ghost predicate Valid()
      reads this, values
    {
      Sorted(values[..])
    }

    constructor (input: seq<Unsigned>)
      ensures Valid()
      ensures multiset(values[..]) == multiset(input)
      ensures fresh(values)
    {
      values := new Unsigned[|input|](i requires 0 <= i < |input| => input[i]);
      new;
      assert values[..] == input;
      SortAscending(values);
    }

    /** The `std::span` view: the stored values, in ascending order. */
    function View(): (s: seq<Unsigned>)
      requires Valid()
      reads this, values
      ensures |s| == values.Length
      ensures Sorted(s)
    {
      values[..]
    }
  }

  /** Sorts `a` in place into ascending order, keeping every value as often as it occurs. */
  method SortAscending(a: array<Unsigned>)
    modifies a
    ensures Sorted(a[..])
    ensures multiset(a[..]) == old(multiset(a[..]))
  {
    var i := 0;
    while i < a.Length
      invariant 0 <= i <= a.Length
      invariant Sorted(a[..i])
      invariant multiset(a[..]) == old(multiset(a[..]))
    {
      SinkLast(a, i);
      i := i + 1;
    }
  }

  /** Moves a[i] down into the sorted a[..i] so that a[..i + 1] is sorted. */
  method SinkLast(a: array<Unsigned>, i: nat)
    requires i < a.Length
    requires Sorted(a[..i])
    modifies a
    ensures Sorted(a[..i + 1])
    ensures multiset(a[..]) == old(multiset(a[..]))
  {
    var j := i;
    while j > 0 && a[j - 1] > a[j]
      invariant 0 <= j <= i
      invariant multiset(a[..]) == old(multiset(a[..]))
      invariant forall p, q :: 0 <= p < q <= i && p != j && q != j ==> a[p] <= a[q]
      invariant forall q :: j < q <= i ==> a[j] < a[q]
    {
      Swap(a, j - 1, j);
      j := j - 1;
    }
  }

  method Swap(a: array<Unsigned>, i: nat, j: nat)
    requires i < a.Length && j < a.Length
    modifies a
    ensures a[..] == old(a[..])[i := old(a[j])][j := old(a[i])]
    ensures multiset(a[..]) == old(multiset(a[..]))
  {
    a[i], a[j] := a[j], a[i];
  }

  // ---------------------------------------------------------------------------------------------
  // trim

  /** The first index at or after `from` whose value is at least `bound`, or |vals| if none is. */
  function FirstAtLeast(vals: seq<Unsigned>, from: nat, bound: int): (k: nat)
    requires from <= |vals|
    ensures from <= k <= |vals|
    ensures forall i :: from <= i < k ==> vals[i] < bound
    ensures k < |vals| ==> vals[k] >= bound
    decreases |vals| - from
  {
    if from == |vals| || vals[from] >= bound then from else FirstAtLeast(vals, from + 1, bound)
  }

  /** The first index at or after `from` whose value is above `bound`, or |vals| if none is. */
  function FirstAbove(vals: seq<Unsigned>, from: nat, bound: int): (k: nat)
    requires from <= |vals|
    ensures from <= k <= |vals|
    ensures forall i :: from <= i < k ==> vals[i] <= bound
    ensures k < |vals| ==> vals[k] > bound
    decreases |vals| - from
  {
    if from == |vals| || vals[from] > bound then from else FirstAbove(vals, from + 1, bound)
  }

  /**
   * `trim`: the part of the sorted `vals` that lies within `b`. The result is empty when no value
   * is at least b.startAt or when the first value is above b.stopAt; otherwise it runs from the
   * first value at least b.startAt up to, not including, the first later value above b.stopAt.
   */
  function Trim(b: Range, vals: seq<Unsigned>): (r: seq<Unsigned>)
    ensures Sorted(vals) ==> forall i :: 0 <= i < |r| ==> b.Contains(r[i])
  {
    var lo := FirstAtLeast(vals, 0, b.startAt);
    var hi := FirstAbove(vals, lo, b.stopAt);
    assert Sorted(vals) ==> forall i :: lo <= i < hi ==> b.Contains(vals[i]) by {
      if Sorted(vals) && lo < hi {
        forall i | lo <= i < hi
          ensures b.Contains(vals[i])
        {
          assert vals[lo] <= vals[i];
        }
      }
    }
    if lo == |vals| || hi == 0 then [] else vals[lo..hi]
  }

  /** Trimming a sorted sequence keeps every value that lies within the range. */
  lemma {:induction false} TrimKeepsValuesInRange(b: Range, vals: seq<Unsigned>, v: Unsigned)
    requires Sorted(vals)
    requires v in vals && b.Contains(v)
    ensures v in Trim(b, vals)
  {
    var lo := FirstAtLeast(vals, 0, b.startAt);
    var hi := FirstAbove(vals, lo, b.stopAt);
    var i :| 0 <= i < |vals| && vals[i] == v;
    forall k | hi <= k < |vals|
      ensures vals[k] > b.stopAt
    {
      assert vals[hi] <= vals[k];
    }
    assert vals[lo..hi][i - lo] == v;
  }

  /** Trimming a strictly increasing sequence leaves a contiguous, strictly increasing part of it. */
  lemma {:induction false} TrimStrictlyIncreasing(b: Range, vals: seq<Unsigned>)
    requires StrictlyIncreasing(vals)
    ensures StrictlyIncreasing(Trim(b, vals))
    ensures exists lo, hi :: 0 <= lo <= hi <= |vals| && Trim(b, vals) == vals[lo..hi]
  {
    var lo := FirstAtLeast(vals, 0, b.startAt);
    var hi := FirstAbove(vals, lo, b.stopAt);
    assert Trim(b, vals) == vals[lo..hi];
  }

  // ---------------------------------------------------------------------------------------------
  // for_each_disjoint_segment

  /** Split points as `for_each_disjoint_segment` sees them after trimming: strictly increasing and
      all within [lo, stop]. */
  predicate InWindow(lo: int, sp: seq<Unsigned>, stop: Unsigned)
  {
    StrictlyIncreasing(sp) && forall i :: 0 <= i < |sp| ==> lo <= sp[i] <= stop
  }

  /**
   * The reference: the maximal ranges of values in [lo, stop] that hold no split point, in
   * increasing order.
   */
  function GapsFrom(lo: nat, sp: seq<Unsigned>, stop: Unsigned): seq<Range>
    requires InWindow(lo, sp, stop)
    decreases |sp|
  {
    if |sp| == 0 then
      (if lo <= stop then [Range(lo, stop)] else [])
    else
      (if lo < sp[0] then [Range(lo, sp[0] - 1)] else []) + GapsFrom(sp[0] as int + 1, sp[1..], stop)
  }

  function MaximalGaps(b: Range, sp: seq<Unsigned>): seq<Range>
    requires InWindow(b.startAt, sp, b.stopAt)
  {
    GapsFrom(b.startAt, sp, b.stopAt)
  }

  /** Unfolds the reference once at split point k + 1. */
  lemma GapsFromStep(sp: seq<Unsigned>, k: nat, stop: Unsigned)
    requires k + 1 < |sp| && InWindow(0, sp, stop)
    ensures InWindow(sp[k] as int + 1, sp[k + 1..], stop)
    ensures InWindow(sp[k + 1] as int + 1, sp[k + 2..], stop)
    ensures GapsFrom(sp[k] as int + 1, sp[k + 1..], stop)
      == (if sp[k] as int + 1 < sp[k + 1] then [Range(sp[k] + 1, sp[k + 1] - 1)] else [])
         + GapsFrom(sp[k + 1] as int + 1, sp[k + 2..], stop)
  {
    assert sp[k + 1..][1..] == sp[k + 2..];
  }

  /** Unfolds the reference once at its first split point. */
  lemma GapsFromHead(lo: nat, sp: seq<Unsigned>, stop: Unsigned)
    requires |sp| > 0 && InWindow(lo, sp, stop)
    ensures InWindow(sp[0] as int + 1, sp[1..], stop)
    ensures GapsFrom(lo, sp, stop)
      == (if lo < sp[0] then [Range(lo, sp[0] - 1)] else []) + GapsFrom(sp[0] as int + 1, sp[1..], stop)
  {
  }

  /**
   * What `for_each_disjoint_segment` emits for the trimmed split points `sp`, as written: nothing
   * when `sp` is empty; the maximal gaps when there are two or more split points or the only one
   * is b.startAt; and for a single split point m above b.startAt, [startAt + 1, m - 1] (when not
   * empty) followed by the range above m.
   */
  function AsWrittenSegments(b: Range, sp: seq<Unsigned>): seq<Range>
    requires InWindow(b.startAt, sp, b.stopAt)
  {
    if |sp| == 0 then []
    else if |sp| == 1 && sp[0] != b.startAt then
      (if b.startAt + 1 <= sp[0] - 1 then [Range(b.startAt + 1, sp[0] - 1)] else [])
      + (if sp[0] + 1 <= b.stopAt then [Range(sp[0] + 1, b.stopAt)] else [])
    else MaximalGaps(b, sp)
  }

  /** The same with the lower bound of the range after the loop corrected (see CorrectedSegments). */
  function CorrectedSegments(b: Range, sp: seq<Unsigned>): seq<Range>
    requires InWindow(b.startAt, sp, b.stopAt)
  {
    if |sp| == 0 then [] else MaximalGaps(b, sp)
  }

  /** How many split points the loop has passed after k steps: the first one is passed before the
      loop starts when it equals b.startAt. */
  function Passed(b: Range, sp: seq<Unsigned>, k: nat): nat
    requires |sp| > 0
  {
    if sp[0] == b.startAt then k + 1 else k
  }

  /** The lowest value not yet dealt with once j split points have been passed. */
  function Pending(b: Range, sp: seq<Unsigned>, j: nat): nat
    requires j <= |sp|
  {
    if j == 0 then b.startAt else sp[j - 1] as int + 1
  }

  /** The loop invariant of SegmentLoop after j split points: `first` is the last split point passed
      (b.startAt before any), and the maximal gaps above it remain to be emitted. */
  ghost predicate LoopInvariant(b: Range, sp: seq<Unsigned>, j: nat, first: Unsigned, emitted: seq<Range>)
    requires InWindow(b.startAt, sp, b.stopAt)
  {
    && j <= |sp|
    && first == (if j == 0 then b.startAt else sp[j - 1])
    && InWindow(Pending(b, sp, j), sp[j..], b.stopAt)
    && emitted + GapsFrom(Pending(b, sp, j), sp[j..], b.stopAt) == MaximalGaps(b, sp)
  }

  lemma LoopInvariantInit(b: Range, sp: seq<Unsigned>)
    requires |sp| > 0 && InWindow(b.startAt, sp, b.stopAt)
    ensures LoopInvariant(b, sp, Passed(b, sp, 0), b.startAt, [])
  {
    assert sp[0..] == sp;
    if sp[0] == b.startAt {
      GapsFromHead(b.startAt, sp, b.stopAt);
    }
  }

  /** The gap below split point j, from the lowest pending value up to just below it. */
  function GapBelow(b: Range, sp: seq<Unsigned>, j: nat): seq<Range>
    requires j < |sp| && InWindow(b.startAt, sp, b.stopAt)
  {
    if Pending(b, sp, j) < sp[j] then [Range(Pending(b, sp, j), sp[j] - 1)] else []
  }

  /** Passing split point j emits the gap below it and keeps LoopInvariant; once the split point
      is b.stopAt, nothing remains. */
  lemma {:induction false} PassSplitPoint(b: Range, sp: seq<Unsigned>, j: nat, first: Unsigned, emitted: seq<Range>)
    requires InWindow(b.startAt, sp, b.stopAt)
    requires j < |sp| && LoopInvariant(b, sp, j, first, emitted)
    ensures LoopInvariant(b, sp, j + 1, sp[j], emitted + GapBelow(b, sp, j))
    ensures sp[j] == b.stopAt ==> emitted + GapBelow(b, sp, j) == MaximalGaps(b, sp)
  {
    GapsFromHead(Pending(b, sp, j), sp[j..], b.stopAt);
    assert sp[j..][1..] == sp[j + 1..];
    var rest := GapsFrom(Pending(b, sp, j + 1), sp[j + 1..], b.stopAt);
    assert emitted + GapBelow(b, sp, j) + rest == MaximalGaps(b, sp);
    if j + 1 < |sp| {
      assert sp[j] < sp[j + 1] <= b.stopAt;
    }
  }

  /**
   * The two ends the loop body computes at step k are the pending value and the value below the
   * next split point, and its early-return test holds exactly when that split point is b.stopAt
   * (which can only be the last one).
   */
  lemma {:induction false} StepEnds(b: Range, sp: seq<Unsigned>, k: nat, first: Unsigned, emitted: seq<Range>,
                    indexStart: int, indexEnd: int)
    requires |sp| > 0 && InWindow(b.startAt, sp, b.stopAt)
    requires k + 1 < |sp| && LoopInvariant(b, sp, Passed(b, sp, k), first, emitted)
    requires indexStart == if sp[k] == first then sp[k] + 1 else first + (if k != 0 then 1 else 0)
    requires indexEnd == if sp[k] == first then sp[k + 1] - 1 else sp[k] - 1
    ensures Passed(b, sp, k) < |sp|
    ensures indexStart == Pending(b, sp, Passed(b, sp, k)) && indexEnd == sp[Passed(b, sp, k)] - 1
    ensures 0 <= indexStart <= MaxUnsigned && 0 <= indexEnd < MaxUnsigned
  {
    assert sp[0] == b.startAt <==> sp[k] == first;
  }

  /**
   * One step of the loop emits the gap below the next split point and keeps LoopInvariant; its
   * early return fires only once everything is emitted.
   */
  lemma {:induction false} SegmentStep(b: Range, sp: seq<Unsigned>, k: nat, first: Unsigned, emitted: seq<Range>,
                    indexStart: int, indexEnd: int)
    requires |sp| > 0 && InWindow(b.startAt, sp, b.stopAt)
    requires k + 1 < |sp| && LoopInvariant(b, sp, Passed(b, sp, k), first, emitted)
    requires indexStart == if sp[k] == first then sp[k] + 1 else first + (if k != 0 then 1 else 0)
    requires indexEnd == if sp[k] == first then sp[k + 1] - 1 else sp[k] - 1
    ensures 0 <= indexStart <= MaxUnsigned && 0 <= indexEnd < MaxUnsigned
    ensures var emitted' := emitted + if indexStart <= indexEnd then [Range(indexStart, indexEnd)] else [];
      && (indexEnd == b.stopAt - 1 ==> emitted' == MaximalGaps(b, sp))
      && (indexEnd != b.stopAt - 1 ==> LoopInvariant(b, sp, Passed(b, sp, k + 1), indexEnd + 1, emitted'))
  {
    StepEnds(b, sp, k, first, emitted, indexStart, indexEnd);
    PassSplitPoint(b, sp, Passed(b, sp, k), first, emitted);
  }

  /**
   * The loop over k of `for_each_disjoint_segment`, on the trimmed split points `sp`. It returns
   * what it has emitted, the final value of `first`, and whether it returned from inside the loop.
   * On an early return everything is emitted; otherwise all split points but the last are passed
   * (the last too when the first equals b.startAt), `first` is the last one passed, or b.startAt
   * when none was, and the gaps above `first` remain.
   * The C++ computes the two ends in `unsigned int`; here they are integers and SegmentStep proves
   * that they stay within range, so nothing wraps around.
   */
  method SegmentLoop(b: Range, sp: seq<Unsigned>) returns (emitted: seq<Range>, first: Unsigned, returned: bool)
    requires |sp| > 0 && InWindow(b.startAt, sp, b.stopAt)
    ensures returned ==> |sp| > 1 && emitted == MaximalGaps(b, sp)
    ensures !returned ==> LoopInvariant(b, sp, Passed(b, sp, |sp| - 1), first, emitted)
  {
    emitted := [];
    first := b.startAt;
    returned := false;
    LoopInvariantInit(b, sp);
    var k := 0;
    while k != |sp| - 1
      invariant 0 <= k <= |sp| - 1
      invariant LoopInvariant(b, sp, Passed(b, sp, k), first, emitted)
    {
      var indexStart: int := if sp[k] == first then sp[k] + 1 else first + (if k != 0 then 1 else 0);
      var indexEnd: int := if sp[k] == first then sp[k + 1] - 1 else sp[k] - 1;
      SegmentStep(b, sp, k, first, emitted, indexStart, indexEnd);
      emitted := emitted + if indexStart <= indexEnd then [Range(indexStart, indexEnd)] else [];
      if indexEnd == b.stopAt - 1 {
        returned := true;
        return;
      }
      first := indexEnd + 1;
      k := k + 1;
    }
  }

  /** What remains after the loop: the gap below the last split point unless the first split point
      is b.startAt, and the range above the last split point. */
  lemma {:induction false} AfterLoop(b: Range, sp: seq<Unsigned>, first: Unsigned, emitted: seq<Range>)
    requires |sp| > 0 && InWindow(b.startAt, sp, b.stopAt)
    requires LoopInvariant(b, sp, Passed(b, sp, |sp| - 1), first, emitted)
    ensures var back := sp[|sp| - 1];
      var above := if back as int + 1 <= b.stopAt then [Range(back + 1, b.stopAt)] else [];
      if sp[0] == b.startAt then emitted + above == MaximalGaps(b, sp)
      else (emitted + GapBelow(b, sp, |sp| - 1) + above == MaximalGaps(b, sp)
            && first == (if |sp| == 1 then b.startAt else sp[|sp| - 2]))
  {
    if sp[0] != b.startAt {
      PassSplitPoint(b, sp, |sp| - 1, first, emitted);
    }
  }

  /** The range from `lower` to just below the last split point, unless the first split point is b.startAt or it is empty. */
  function Below(b: Range, sp: seq<Unsigned>, lower: int): seq<Range>
    requires |sp| > 0 && 0 <= lower
  {
    if b.startAt != sp[0] && lower <= sp[|sp| - 1] as int - 1 then [Range(lower, sp[|sp| - 1] - 1)] else []
  }

  /** The range above the last split point, unless it is empty. */
  function Above(b: Range, sp: seq<Unsigned>): seq<Range>
    requires |sp| > 0
  {
    if b.stopAt != sp[|sp| - 1] && sp[|sp| - 1] + 1 <= b.stopAt then [Range(sp[|sp| - 1] + 1, b.stopAt)] else []
  }

  /**
   * The two statements after the loop of `for_each_disjoint_segment`: the range from `lower` to
   * just below the last split point unless the first split point is b.startAt, then the range
   * above the last split point, each only when it is not empty. The C++ computes the ends in
   * `unsigned int`; its tests short-circuit before `back - 1` or `back + 1` could wrap around on
   * trimmed split points, so integers give the same ranges.
   */
  method EmitAfterLoop(b: Range, sp: seq<Unsigned>, lower: int) returns (rest: seq<Range>)
    requires |sp| > 0 && 0 <= lower
    ensures rest == Below(b, sp, lower) + Above(b, sp)
  {
    rest := [];
    var back := sp[|sp| - 1];
    if b.startAt != sp[0] && lower <= back - 1 {
      rest := rest + [Range(lower, back - 1)];
    }
    if b.stopAt != back && back + 1 <= b.stopAt {
      rest := rest + [Range(back + 1, b.stopAt)];
    }
  }

  /**
   * The two ranges the code emits after the loop, as written, complete what it promises: the
   * range from first + 1 to just below the last split point unless the first split point is
   * b.startAt, then the range above the last split point.
   */
  lemma {:induction false} AsWrittenAfterLoop(b: Range, sp: seq<Unsigned>, first: Unsigned, emitted: seq<Range>)
    requires |sp| > 0 && InWindow(b.startAt, sp, b.stopAt)
    requires LoopInvariant(b, sp, Passed(b, sp, |sp| - 1), first, emitted)
    ensures emitted + Below(b, sp, first + 1) + Above(b, sp) == AsWrittenSegments(b, sp)
  {
    AfterLoop(b, sp, first, emitted);
  }

  /** The same for the corrected lower bound, which completes the maximal gaps. */
  lemma {:induction false} CorrectedAfterLoop(b: Range, sp: seq<Unsigned>, first: Unsigned, emitted: seq<Range>, lower: int)
    requires |sp| > 0 && InWindow(b.startAt, sp, b.stopAt)
    requires LoopInvariant(b, sp, Passed(b, sp, |sp| - 1), first, emitted)
    requires lower == if |sp| != 1 then first + 1 else first
    ensures emitted + Below(b, sp, lower) + Above(b, sp) == CorrectedSegments(b, sp)
  {
    AfterLoop(b, sp, first, emitted);
  }

  /**
   * `for_each_disjoint_segment`: the ranges handed to the callback, in call order, for the range
   * `b` split at the strictly increasing `splitPoints`.
   */
  method ForEachDisjointSegment(b: Range, splitPoints: seq<Unsigned>) returns (emitted: seq<Range>)
    requires StrictlyIncreasing(splitPoints)
    ensures InWindow(b.startAt, Trim(b, splitPoints), b.stopAt)
    ensures emitted == AsWrittenSegments(b, Trim(b, splitPoints))
  {
    var sp := Trim(b, splitPoints);
    TrimStrictlyIncreasing(b, splitPoints);
    if |sp| == 0 {
      return [];
    }
    var first: Unsigned, returned: bool;
    emitted, first, returned := SegmentLoop(b, sp);
    if returned {
      return;
    }
    var rest := EmitAfterLoop(b, sp, first + 1);
    AsWrittenAfterLoop(b, sp, first, emitted);
    emitted := emitted + rest;
  }

  /**
   * `for_each_disjoint_segment` with the lower bound of the range below the last split point
   * corrected: `first` is b.startAt itself when the loop passed no split point, so it is not
   * incremented then (as the loop body already does for k == 0).
   */
  method ForEachDisjointSegmentCorrected(b: Range, splitPoints: seq<Unsigned>) returns (emitted: seq<Range>)
    requires StrictlyIncreasing(splitPoints)
    ensures InWindow(b.startAt, Trim(b, splitPoints), b.stopAt)
    ensures emitted == CorrectedSegments(b, Trim(b, splitPoints))
  {
    var sp := Trim(b, splitPoints);
    TrimStrictlyIncreasing(b, splitPoints);
    if |sp| == 0 {
      return [];
    }
    var first: Unsigned, returned: bool;
    emitted, first, returned := SegmentLoop(b, sp);
    if returned {
      return;
    }
    var lower := if |sp| != 1 then first + 1 else first;
    var rest := EmitAfterLoop(b, sp, lower);
    CorrectedAfterLoop(b, sp, first, emitted, lower);
    emitted := emitted + rest;
  }

  // ---------------------------------------------------------------------------------------------
  // What the emitted ranges are

  /** Each range is non-empty, and between any two consecutive ones lies at least one value. */
  predicate Separated(rs: seq<Range>)
  {
    && (forall i :: 0 <= i < |rs| ==> rs[i].startAt <= rs[i].stopAt)
    && (forall i, j :: 0 <= i < j < |rs| ==> rs[i].stopAt + 1 < rs[j].startAt)
  }

  predicate Within(rs: seq<Range>, lo: int, hi: int)
  {
    forall i :: 0 <= i < |rs| ==> lo <= rs[i].startAt && rs[i].stopAt <= hi
  }

  predicate AvoidsAll(rs: seq<Range>, sp: seq<Unsigned>)
  {
    forall i, v :: 0 <= i < |rs| && v in sp ==> !rs[i].Contains(v)
  }

  predicate Covered(rs: seq<Range>, x: int)
  {
    exists i :: 0 <= i < |rs| && rs[i].Contains(x)
  }

  /** The reference's ranges are non-empty, lie within [lo, stop] and hold no split point. */
  lemma {:induction false} GapsFromWithin(lo: nat, sp: seq<Unsigned>, stop: Unsigned)
    requires InWindow(lo, sp, stop)
    ensures var rs := GapsFrom(lo, sp, stop);
      && (forall i :: 0 <= i < |rs| ==> rs[i].startAt <= rs[i].stopAt)
      && Within(rs, lo, stop) && AvoidsAll(rs, sp)
    decreases |sp|
  {
    if |sp| > 0 {
      var head := if lo < sp[0] then [Range(lo, sp[0] - 1)] else [];
      var tail := GapsFrom(sp[0] as int + 1, sp[1..], stop);
      GapsFromWithin(sp[0] as int + 1, sp[1..], stop);
      var rs := head + tail;
      assert GapsFrom(lo, sp, stop) == rs;
      forall i, v | 0 <= i < |rs| && v in sp
        ensures !rs[i].Contains(v)
      {
        assert v == sp[0] || v in sp[1..];
        if i >= |head| {
          assert rs[i] == tail[i - |head|];
        }
      }
    }
  }

  /** The reference's ranges come in increasing order with a split point between consecutive ones. */
  lemma {:induction false} GapsFromSeparated(lo: nat, sp: seq<Unsigned>, stop: Unsigned)
    requires InWindow(lo, sp, stop)
    ensures Separated(GapsFrom(lo, sp, stop))
    decreases |sp|
  {
    GapsFromWithin(lo, sp, stop);
    if |sp| > 0 {
      var head := if lo < sp[0] then [Range(lo, sp[0] - 1)] else [];
      var tail := GapsFrom(sp[0] as int + 1, sp[1..], stop);
      GapsFromWithin(sp[0] as int + 1, sp[1..], stop);
      GapsFromSeparated(sp[0] as int + 1, sp[1..], stop);
      var rs := head + tail;
      assert GapsFrom(lo, sp, stop) == rs;
      forall i, j | 0 <= i < j < |rs|
        ensures rs[i].stopAt + 1 < rs[j].startAt
      {
        if i >= |head| {
          assert rs[i] == tail[i - |head|] && rs[j] == tail[j - |head|];
        } else {
          assert rs[j] == tail[j - |head|];
        }
      }
    }
  }

  lemma GapsFromShape(lo: nat, sp: seq<Unsigned>, stop: Unsigned)
    requires InWindow(lo, sp, stop)
    ensures var rs := GapsFrom(lo, sp, stop);
      Separated(rs) && Within(rs, lo, stop) && AvoidsAll(rs, sp)
  {
    GapsFromWithin(lo, sp, stop);
    GapsFromSeparated(lo, sp, stop);
  }

  /** Every value of [lo, stop] that is not a split point lies in one of the reference's ranges. */
  lemma {:induction false} GapsFromCoversGap(lo: nat, sp: seq<Unsigned>, stop: Unsigned, x: int)
    requires InWindow(lo, sp, stop)
    requires lo <= x <= stop && x !in sp
    ensures Covered(GapsFrom(lo, sp, stop), x)
    decreases |sp|
  {
    var rs := GapsFrom(lo, sp, stop);
    if |sp| == 0 {
      assert rs[0].Contains(x);
    } else {
      var head := if lo < sp[0] then [Range(lo, sp[0] - 1)] else [];
      var tail := GapsFrom(sp[0] as int + 1, sp[1..], stop);
      assert rs == head + tail;
      if x < sp[0] {
        assert rs[0].Contains(x);
      } else {
        assert x !in sp[1..];
        GapsFromCoversGap(sp[0] as int + 1, sp[1..], stop, x);
        var i :| 0 <= i < |tail| && tail[i].Contains(x);
        assert rs[|head| + i] == tail[i];
      }
    }
  }

  /** The reference covers exactly the values of [lo, stop] that are not split points. */
  lemma {:induction false} GapsFromCovers(lo: nat, sp: seq<Unsigned>, stop: Unsigned, x: int)
    requires InWindow(lo, sp, stop)
    ensures Covered(GapsFrom(lo, sp, stop), x) <==> lo <= x <= stop && x !in sp
  {
    GapsFromShape(lo, sp, stop);
    if lo <= x <= stop && x !in sp {
      GapsFromCoversGap(lo, sp, stop, x);
    }
  }

  /**
   * Whatever the split points, every range `for_each_disjoint_segment` emits is non-empty, lies
   * within the boundaries and holds no split point, and the ranges come in increasing order with
   * at least one value between consecutive ones.
   */
  lemma {:induction false} AsWrittenSegmentsShape(b: Range, sp: seq<Unsigned>)
    requires InWindow(b.startAt, sp, b.stopAt)
    ensures var rs := AsWrittenSegments(b, sp);
      Separated(rs) && Within(rs, b.startAt, b.stopAt) && AvoidsAll(rs, sp)
  {
    if |sp| > 0 && !(|sp| == 1 && sp[0] != b.startAt) {
      GapsFromShape(b.startAt, sp, b.stopAt);
    }
  }

  /**
   * With two or more split points inside the boundaries, or a single one equal to b.startAt, the
   * emitted ranges cover exactly the values within the boundaries that are not split points; with
   * none, nothing is emitted.
   */
  lemma {:induction false} AsWrittenSegmentsCover(b: Range, sp: seq<Unsigned>, x: int)
    requires InWindow(b.startAt, sp, b.stopAt)
    ensures |sp| == 0 ==> AsWrittenSegments(b, sp) == []
    ensures |sp| > 1 || (|sp| == 1 && sp[0] == b.startAt) ==>
      (Covered(AsWrittenSegments(b, sp), x) <==> b.Contains(x) && x !in sp)
  {
    if |sp| > 0 {
      GapsFromCovers(b.startAt, sp, b.stopAt, x);
    }
  }

  /**
   * The quirk: with a single split point m above b.startAt, the value b.startAt is neither a
   * split point nor in any emitted range.
   */
  lemma {:induction false} AsWrittenSegmentsMissStart(b: Range, m: Unsigned)
    requires b.startAt < m <= b.stopAt
    ensures InWindow(b.startAt, [m], b.stopAt)
    ensures b.Contains(b.startAt) && b.startAt !in [m]
    ensures !Covered(AsWrittenSegments(b, [m]), b.startAt)
  {
  }

  /** For instance the range [0, 10] split at 5 gives [1, 4] and [6, 10], leaving 0 out. */
  lemma AsWrittenSegmentsExample()
    ensures AsWrittenSegments(Range(0, 10), [5]) == [Range(1, 4), Range(6, 10)]
    ensures MaximalGaps(Range(0, 10), [5]) == [Range(0, 4), Range(6, 10)]
  {
  }

  /** The corrected variant emits the maximal gaps, covering exactly the values within the
      boundaries that are not split points, whenever there is a split point inside them. */
  lemma {:induction false} CorrectedSegmentsCover(b: Range, sp: seq<Unsigned>, x: int)
    requires InWindow(b.startAt, sp, b.stopAt)
    ensures var rs := CorrectedSegments(b, sp);
      && Separated(rs) && Within(rs, b.startAt, b.stopAt) && AvoidsAll(rs, sp)
      && (|sp| > 0 ==> (Covered(rs, x) <==> b.Contains(x) && x !in sp))
  {
    GapsFromShape(b.startAt, sp, b.stopAt);
    GapsFromCovers(b.startAt, sp, b.stopAt, x);
  }

  // ---------------------------------------------------------------------------------------------
  // to_string

  /** The decimal digits of n, most significant first, as `std::format("{}")` prints it. */
  function Decimal(n: nat): (s: string)
    ensures |s| > 0
    ensures forall i :: 0 <= i < |s| ==> '0' <= s[i] <= '9'
  {
    if n < 10 then [DigitChar(n)] else Decimal(n / 10) + [DigitChar(n % 10)]
  }

  function DigitChar(d: nat): (c: char)
    requires d < 10
    ensures '0' <= c <= '9'
  {
    ['0', '1', '2', '3', '4', '5', '6', '7', '8', '9'][d]
  }

  function DigitValue(c: char): nat
    requires '0' <= c <= '9'
  {
    c as int - '0' as int
  }

  /** Reads a string of decimal digits back into the number it denotes. */
  function ParseDecimal(s: string): nat
    requires forall i :: 0 <= i < |s| ==> '0' <= s[i] <= '9'
  {
    if |s| == 0 then 0 else 10 * ParseDecimal(s[..|s| - 1]) + DigitValue(s[|s| - 1])
  }

  lemma {:induction false} DecimalRoundTrip(n: nat)
    ensures ParseDecimal(Decimal(n)) == n
    decreases n
  {
    var s := Decimal(n);
    if n < 10 {
      assert DigitValue(DigitChar(n)) == n;
    } else {
      DecimalRoundTrip(n / 10);
      assert s[..|s| - 1] == Decimal(n / 10);
      assert DigitValue(DigitChar(n % 10)) == n % 10;
    }
  }

  /** `to_string`: "[start, stop]". */
  function RangeToString(r: Range): (s: string)
    ensures |s| == |Decimal(r.startAt)| + |Decimal(r.stopAt)| + 4
    ensures s[0] == '[' && s[|s| - 1] == ']'
  {
    "[" + Decimal(r.startAt) + ", " + Decimal(r.stopAt) + "]"
  }

  /** The run of decimal digits at the front of s. */
  function LeadingDigits(s: string): (d: string)
    ensures |d| <= |s| && d == s[..|d|]
    ensures forall i :: 0 <= i < |d| ==> '0' <= d[i] <= '9'
  {
    if |s| == 0 || !('0' <= s[0] <= '9') then [] else [s[0]] + LeadingDigits(s[1..])
  }

  lemma {:induction false} LeadingDigitsBeforeSeparator(digits: string, rest: string)
    requires forall i :: 0 <= i < |digits| ==> '0' <= digits[i] <= '9'
    requires |rest| > 0 && !('0' <= rest[0] <= '9')
    ensures LeadingDigits(digits + rest) == digits
    decreases |digits|
  {
    if |digits| > 0 {
      assert (digits + rest)[1..] == digits[1..] + rest;
      LeadingDigitsBeforeSeparator(digits[1..], rest);
    }
  }

  /** The text of r holds the digits of its start right after the bracket, and those of its stop
      between the comma and space and the closing bracket. */
  lemma {:induction false} RangeToStringParts(r: Range)
    ensures var text, s, t := RangeToString(r), Decimal(r.startAt), Decimal(r.stopAt);
      LeadingDigits(text[1..]) == s && text[|s| + 3..|text| - 1] == t
  {
    var text, s, t := RangeToString(r), Decimal(r.startAt), Decimal(r.stopAt);
    assert text[1..] == s + (", " + t + "]");
    LeadingDigitsBeforeSeparator(s, ", " + t + "]");
    assert text[|s| + 3..|text| - 1] == t;
  }

  /** Different ranges never print the same: the text determines both bounds. */
  lemma {:induction false} RangeToStringInjective(r1: Range, r2: Range)
    requires RangeToString(r1) == RangeToString(r2)
    ensures r1 == r2
  {
    RangeToStringParts(r1);
    RangeToStringParts(r2);
    DecimalRoundTrip(r1.startAt);
    DecimalRoundTrip(r2.startAt);
    DecimalRoundTrip(r1.stopAt);
    DecimalRoundTrip(r2.stopAt);
  }
}
