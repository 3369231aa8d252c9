/**
 * `RawDynArray`: the untyped part of the growable array. It owns a capacity
 * (an element count) and, in the source, a pointer; the pointer is not
 * modelled, only what the allocator is told about it. Every operation takes
 * the allocator explicitly and must be given the one the buffer was made with.
 */
module RawDynArrays {
  import opened Prelude
  import opened Allocator

  /** `MIN_NON_ZERO_CAP`: the smallest capacity a first allocation asks for. */
  function MinNonZeroCap(elemSize: nat): (m: nat)
    ensures m >= 1
    ensures m == 8 <==> elemSize == 1
    ensures m == 1 <==> elemSize > 1024
    ensures elemSize != 1 && elemSize <= 1024 ==> m == 4
  {
    if elemSize == 1 then 8 else if elemSize <= 1024 then 4 else 1
  }

  /** The capacity `grow` computes: the least value that is at least the
      required capacity, at least double the old one, and at least
      `MIN_NON_ZERO_CAP`. */
  function NewCap(cap: nat, len: nat, additional: nat, elemSize: nat): (c: nat)
    ensures c >= len + additional && c >= 2 * cap && c >= MinNonZeroCap(elemSize)
    ensures c == len + additional || c == 2 * cap || c == MinNonZeroCap(elemSize)
  {
    Max(MinNonZeroCap(elemSize), Max(2 * cap, len + additional))
  }

  /** Bytes a buffer of this capacity holds at its allocator: nothing while
      the capacity is zero or the elements have no size. */
  function Footprint(cap: nat, elemSize: nat): (bytes: nat) {
    cap * elemSize
  }

  /** The panic, if any, that `grow` raises before it touches anything. */
  function GrowResult(cap: nat, len: nat, additional: nat, elemSize: nat): (r: Outcome)
    ensures r.Pass? ==> CapacityOk(NewCap(cap, len, additional, elemSize), elemSize)
    ensures r.Fail? ==> r.error in {CapacityOverflow, AddOverflow, AllocationTooLarge}
  {
    if elemSize == 0 then Fail(CapacityOverflow)
    else if len + additional > USIZE_MAX then Fail(AddOverflow)
    else if NewCap(cap, len, additional, elemSize) * elemSize > ISIZE_MAX then Fail(AllocationTooLarge)
    else Pass
  }

  /** The fast-path test of `reserve`: `additional > cap.wrapping_sub(len)`. */
  predicate NeedsGrow(cap: usize, len: usize, additional: usize) {
    additional > WrappingSub(cap, len)
  }

  /** What `reserve` returns: the fast path never fails. */
  function ReserveResult(cap: usize, len: usize, additional: usize, elemSize: nat): (r: Outcome)
    ensures r.Fail? ==> len + additional > cap
  {
    if NeedsGrow(cap, len, additional) then GrowResult(cap, len, additional, elemSize) else Pass
  }

  /** The capacity after `reserve`. */
  function ReservedCap(cap: usize, len: usize, additional: usize, elemSize: nat): (c: nat)
    ensures c >= cap
  {
    if NeedsGrow(cap, len, additional) && GrowResult(cap, len, additional, elemSize).Pass?
    then NewCap(cap, len, additional, elemSize)
    else cap
  }

  /** The capacity invariant of a raw buffer: the sentinel `usize::MAX` for
      zero-sized elements, otherwise a capacity whose byte size fits `isize`. */
  predicate CapacityOk(cap: nat, elemSize: nat) {
    && cap <= USIZE_MAX
    && (elemSize == 0 ==> cap == USIZE_MAX)
    && (elemSize != 0 ==> cap * elemSize <= ISIZE_MAX)
  }

  class RawDynArray {
    var cap: usize
    const elemSize: nat
    /** The debug-only back-reference used for the same-allocator assertions. */
    ghost const allocator: Alloc

    ghost predicate Valid()
      reads this
    {
      CapacityOk(cap, elemSize)
    }

    /** `RawDynArray::new`: no allocation; the sentinel capacity for
        zero-sized elements, zero otherwise. */
    constructor (alloc: Alloc, elemSize: nat)
      ensures Valid()
      ensures this.elemSize == elemSize && allocator == alloc
      ensures cap == if elemSize == 0 then USIZE_MAX else 0
    {
      this.elemSize := elemSize;
      allocator := alloc;
      cap := if elemSize == 0 then USIZE_MAX else 0;
      new;
      assert elemSize != 0 ==> cap * elemSize == 0;
    }

    /** `reserve`: grows only when fewer than `additional` free slots remain;
        otherwise nothing changes at all. */
    method Reserve(alloc: Alloc, len: usize, additional: usize) returns (r: Outcome)
      requires Valid() && alloc == allocator && len <= cap
      modifies this, alloc
      ensures Valid() && cap >= old(cap)
      ensures r == ReserveResult(old(cap), len, additional, elemSize)
      ensures cap == ReservedCap(old(cap), len, additional, elemSize)
      ensures alloc.allocatedBytes ==
                (old(alloc.allocatedBytes) + Footprint(cap, elemSize) - Footprint(old(cap), elemSize)) % WORD
      ensures !NeedsGrow(old(cap), len, additional) ==> unchanged(this, alloc)
    {
      if additional > WrappingSub(cap, len) {
        r := Grow(alloc, len, additional);
      } else {
        r := Pass;
      }
    }

    /** `grow`: panics for zero-sized elements, on overflow of the required
        capacity and when the new layout exceeds `isize::MAX` bytes; otherwise
        asks the allocator for the new capacity (a fresh allocation when the
        capacity was zero, a grow otherwise). Allocation itself always succeeds. */
    method Grow(alloc: Alloc, len: usize, additional: usize) returns (r: Outcome)
      requires Valid() && alloc == allocator && len <= cap
      modifies this, alloc
      ensures Valid() && cap >= old(cap)
      ensures r == GrowResult(old(cap), len, additional, elemSize)
      ensures cap == if r.Pass? then NewCap(old(cap), len, additional, elemSize) else old(cap)
      ensures alloc.allocatedBytes ==
                (old(alloc.allocatedBytes) + Footprint(cap, elemSize) - Footprint(old(cap), elemSize)) % WORD
      ensures r.Fail? ==> unchanged(this, alloc)
    {
      if elemSize == 0 {
        return Fail(CapacityOverflow);
      }
      if len + additional > USIZE_MAX {
        return Fail(AddOverflow);
      }
      // `2 * cap` cannot overflow: cap * elemSize <= isize::MAX.
      var newCap := NewCap(cap, len, additional, elemSize);
      if newCap * elemSize > ISIZE_MAX {
        return Fail(AllocationTooLarge);
      }
      var newSize := newCap * elemSize;
      assert Footprint(newCap, elemSize) == newSize;
      if cap == 0 {
        alloc.Allocate(newSize);
      } else {
        var oldSize := cap * elemSize;
        MulMonotone(cap, newCap, elemSize);
        alloc.Grow(oldSize, newSize);
        assert alloc.allocatedBytes == (old(alloc.allocatedBytes) + (newSize - oldSize)) % WORD;
      }
      cap := newCap;
      r := Pass;
    }

    /** `destroy`: gives the memory back when there is some, and leaves the
        capacity as it was. */
    method Destroy(alloc: Alloc)
      requires Valid() && alloc == allocator
      modifies alloc
      ensures alloc.allocatedBytes == WrappingSub(old(alloc.allocatedBytes), Footprint(cap, elemSize))
    {
      if cap != 0 && elemSize != 0 {
        alloc.Deallocate(cap * elemSize);
      }
    }

    /** The evidently intended `destroy`: gives the memory back and forgets
        it, so that the debug `Drop` check passes afterwards. */
    method DestroyAndReset(alloc: Alloc)
      requires Valid() && alloc == allocator
      modifies this, alloc
      ensures Valid() && DropCheckPasses()
      ensures alloc.allocatedBytes == WrappingSub(old(alloc.allocatedBytes), Footprint(old(cap), elemSize))
    {
      Destroy(alloc);
      if elemSize != 0 {
        cap := 0;
      }
    }

    /** The debug-build `Drop` check: a buffer of sized elements must have
        capacity zero when it is dropped. */
    predicate DropCheckPasses(): (passes: bool)
      reads this
      ensures passes && Valid() ==> Footprint(cap, elemSize) == 0
    {
      elemSize != 0 ==> cap == 0
    }
  }

  /** As written, `destroy` leaves the capacity in place: a byte buffer that
      has grown once and is then destroyed still fails the debug `Drop`
      check. */
  method GrowThenDestroyFailsDropCheck() returns (passes: bool, capAfter: usize)
    ensures capAfter == 8 && !passes
  {
    var alloc := new Alloc();
    var buf := new RawDynArray(alloc, 1);
    var r := buf.Reserve(alloc, 0, 1);
    buf.Destroy(alloc);
    passes := buf.DropCheckPasses();
    capAfter := buf.cap;
  }

  /** With the intended `destroy`, the same sequence returns every byte and
      passes the `Drop` check. */
  method GrowThenDestroyAndResetPassesDropCheck() returns (passes: bool, bytesAfter: usize)
    ensures passes && bytesAfter == 0
  {
    var alloc := new Alloc();
    var buf := new RawDynArray(alloc, 1);
    var r := buf.Reserve(alloc, 0, 1);
    buf.DestroyAndReset(alloc);
    passes := buf.DropCheckPasses();
    bytesAfter := alloc.AllocatedBytes();
  }

  /** A satisfied `reserve` leaves room for `additional` more elements after
      `len`, and capacity never decreases. */
  lemma ReserveProvidesRoom(cap: usize, len: usize, additional: usize, elemSize: nat)
    requires CapacityOk(cap, elemSize) && len <= cap
    requires ReserveResult(cap, len, additional, elemSize).Pass?
    ensures ReservedCap(cap, len, additional, elemSize) >= len + additional
    ensures ReservedCap(cap, len, additional, elemSize) >= cap
    ensures CapacityOk(ReservedCap(cap, len, additional, elemSize), elemSize)
  {
  }

  /** Repeating a satisfied `reserve`, with the same or a smaller request,
      takes the fast path: it succeeds and changes nothing. */
  lemma ReserveIdempotent(cap: usize, len: usize, additional: usize, fewer: usize, elemSize: nat)
    requires CapacityOk(cap, elemSize) && len <= cap && fewer <= additional
    requires ReserveResult(cap, len, additional, elemSize).Pass?
    ensures var cap' := ReservedCap(cap, len, additional, elemSize);
            cap' <= USIZE_MAX &&
            !NeedsGrow(cap', len, fewer) &&
            ReserveResult(cap', len, fewer, elemSize) == Pass &&
            ReservedCap(cap', len, fewer, elemSize) == cap'
  {
    ReserveProvidesRoom(cap, len, additional, elemSize);
  }

  /** For zero-sized elements the sentinel capacity means every request that
      fits in `usize` is already met, and the first one that does not is
      refused with "capacity overflow". */
  lemma ZeroSizedNeverAllocates(len: usize, additional: usize)
    ensures ReservedCap(USIZE_MAX, len, additional, 0) == USIZE_MAX
    ensures ReserveResult(USIZE_MAX, len, additional, 0) ==
              if len + additional <= USIZE_MAX then Pass else Fail(CapacityOverflow)
  {
  }

  /** The panics of `reserve` for sized elements: it fails exactly when the
      fast path does not apply and either `len + additional` overflows or
      the grown layout would exceed `isize::MAX` bytes. */
  lemma ReserveFailsOnlyWhenTooLarge(cap: usize, len: usize, additional: usize, elemSize: nat)
    requires CapacityOk(cap, elemSize) && len <= cap && elemSize != 0
    ensures ReserveResult(cap, len, additional, elemSize).Fail? <==>
              len + additional > cap &&
              (len + additional > USIZE_MAX || NewCap(cap, len, additional, elemSize) * elemSize > ISIZE_MAX)
  {
  }

  lemma MulMonotone(a: nat, b: nat, e: nat)
    requires a <= b
    ensures a * e <= b * e
  {
  }

  /** An allocator that holds only this buffer's memory keeps holding exactly
      its footprint across a growth that succeeds. */
  lemma SoleOwnerAfterGrowth(counter: usize, oldCap: nat, newCap: nat, elemSize: nat)
    requires CapacityOk(oldCap, elemSize) && CapacityOk(newCap, elemSize) && oldCap <= newCap
    requires counter == Footprint(oldCap, elemSize)
    ensures Footprint(oldCap, elemSize) <= Footprint(newCap, elemSize)
    ensures (counter + Footprint(newCap, elemSize) - Footprint(oldCap, elemSize)) % WORD ==
              Footprint(newCap, elemSize)
  {
    MulMonotone(oldCap, newCap, elemSize);
  }

  // ---------------------------------------------------------------------
  // Growth from empty
  // ---------------------------------------------------------------------

  /** 2^k. */
  function Pow2(k: nat): (p: nat)
    ensures p >= 1
  {
    if k == 0 then 1 else 2 * Pow2(k - 1)
  }

  /** The least `k` with `m * 2^k >= n`. */
  function LeastDoubling(m: nat, n: nat): (k: nat)
    requires m >= 1
    ensures m * Pow2(k) >= n
    ensures k == 0 || m * Pow2(k - 1) < n
    decreases n - m
  {
    if m >= n then 0
    else
      var k' := LeastDoubling(2 * m, n);
      ScaleDouble(m, k');
      if k' == 0 then 1 else ScaleDouble(m, k' - 1); 1 + k'
  }

  /** Doubling the exponent's base moves a factor of two into the scale. */
  lemma ScaleDouble(m: nat, k: nat)
    ensures m * Pow2(k + 1) == (2 * m) * Pow2(k)
  {
    assert Pow2(k + 1) == 2 * Pow2(k);
  }

  /** The capacity of a new array of sized elements after `n` pushes: push
      number `i` reserves one slot at length `i`. */
  function CapAfterPushes(n: nat, elemSize: nat): (c: nat)
    requires elemSize >= 1 && n <= USIZE_MAX
    ensures c <= ISIZE_MAX
  {
    if n == 0 then 0
    else
      var cap := CapAfterPushes(n - 1, elemSize);
      var c := ReservedCap(cap, n - 1, 1, elemSize);
      MulMonotone(1, elemSize, c);
      c
  }

  /** None of the first `n` pushes onto a new array panics. */
  predicate PushesSucceed(n: nat, elemSize: nat)
    requires elemSize >= 1 && n <= USIZE_MAX
  {
    n == 0 ||
    (PushesSucceed(n - 1, elemSize) &&
     ReserveResult(CapAfterPushes(n - 1, elemSize), n - 1, 1, elemSize).Pass?)
  }

  lemma {:induction false} Pow2Monotone(a: nat, b: nat)
    requires a <= b
    ensures Pow2(a) <= Pow2(b)
    decreases b
  {
    if a < b {
      Pow2Monotone(a, b - 1);
    }
  }

  /** A larger exponent gives a larger scaled power. */
  lemma ScaledPow2Monotone(m: nat, a: nat, b: nat)
    requires a <= b
    ensures m <= m * Pow2(b) && m * Pow2(a) <= m * Pow2(b)
  {
    Pow2Monotone(a, b);
    MulMonotone(Pow2(a), Pow2(b), m);
    MulMonotone(1, Pow2(b), m);
  }

  /** Any `j` with the two properties of `LeastDoubling` is it. */
  lemma LeastDoublingUnique(m: nat, n: nat, j: nat)
    requires m >= 1 && m * Pow2(j) >= n && (j == 0 || m * Pow2(j - 1) < n)
    ensures j == LeastDoubling(m, n)
  {
    var k := LeastDoubling(m, n);
    if j < k {
      ScaledPow2Monotone(m, j, k - 1);
    } else if k < j {
      ScaledPow2Monotone(m, k, j - 1);
    }
  }

  /** The least doubling never shrinks as the count grows. */
  lemma LeastDoublingMonotone(m: nat, n1: nat, n2: nat)
    requires m >= 1 && n1 <= n2
    ensures LeastDoubling(m, n1) <= LeastDoubling(m, n2)
  {
    var k1, k2 := LeastDoubling(m, n1), LeastDoubling(m, n2);
    if k2 < k1 {
      ScaledPow2Monotone(m, k2, k1 - 1);
    }
  }

  /** The first push onto a new array of sized elements allocates
      `MIN_NON_ZERO_CAP` slots. */
  lemma FirstPush(elemSize: nat)
    requires elemSize >= 1 && MinNonZeroCap(elemSize) * elemSize <= ISIZE_MAX
    ensures ReserveResult(0, 0, 1, elemSize).Pass?
    ensures ReservedCap(0, 0, 1, elemSize) == MinNonZeroCap(elemSize)
  {
    assert NewCap(0, 0, 1, elemSize) == MinNonZeroCap(elemSize);
  }

  /** A later push: a full array doubles, one with room keeps its capacity. */
  lemma LaterPush(n: nat, elemSize: nat, cap: nat)
    requires elemSize >= 1 && 2 <= n <= USIZE_MAX
    requires PushesSucceed(n - 1, elemSize) && CapAfterPushes(n - 1, elemSize) == cap
    requires n - 1 <= cap && MinNonZeroCap(elemSize) <= cap
    requires cap == n - 1 ==> 2 * cap * elemSize <= ISIZE_MAX
    ensures PushesSucceed(n, elemSize)
    ensures CapAfterPushes(n, elemSize) == if cap == n - 1 then 2 * cap else cap
  {
    if cap == n - 1 {
      assert NewCap(cap, n - 1, 1, elemSize) == 2 * cap;
    }
  }

  /** The capacity the first `n` pushes reach, as the growth rule predicts:
      the least `MIN_NON_ZERO_CAP * 2^k` that holds `n` elements. */
  function PredictedCap(n: nat, elemSize: nat): (c: nat)
    ensures c >= n && c >= MinNonZeroCap(elemSize)
  {
    var m := MinNonZeroCap(elemSize);
    ScaledPow2Monotone(m, 0, LeastDoubling(m, n));
    m * Pow2(LeastDoubling(m, n))
  }

  /** A predicted capacity that fits `isize` bounds every earlier one. */
  lemma PredictedCapMonotone(n: nat, elemSize: nat)
    requires n >= 1 && PredictedCap(n, elemSize) * elemSize <= ISIZE_MAX
    ensures PredictedCap(n - 1, elemSize) * elemSize <= ISIZE_MAX
  {
    var m := MinNonZeroCap(elemSize);
    LeastDoublingMonotone(m, n - 1, n);
    ScaledPow2Monotone(m, LeastDoubling(m, n - 1), LeastDoubling(m, n));
    MulMonotone(PredictedCap(n - 1, elemSize), PredictedCap(n, elemSize), elemSize);
  }

  /** One push more: the predicted capacity either stays or doubles, and it
      doubles exactly when the previous one was full. */
  lemma PredictedCapStep(n: nat, elemSize: nat)
    requires n >= 2
    ensures PredictedCap(n, elemSize) ==
              if PredictedCap(n - 1, elemSize) == n - 1 then 2 * PredictedCap(n - 1, elemSize)
              else PredictedCap(n - 1, elemSize)
  {
    var m := MinNonZeroCap(elemSize);
    var k' := LeastDoubling(m, n - 1);
    if m * Pow2(k') >= n {
      LeastDoublingUnique(m, n, k');
    } else {
      ScaleDouble(m, k');
      LeastDoublingUnique(m, n, k' + 1);
    }
  }

  /** Growth from empty: after `n >= 1` pushes onto a new array of sized
      elements, the capacity is the least `MIN_NON_ZERO_CAP * 2^k` that holds
      `n` elements, and no push has panicked, as long as that capacity's
      byte size fits `isize`. */
  lemma {:induction false} PushGrowth(n: nat, elemSize: nat)
    requires 1 <= n <= USIZE_MAX && elemSize >= 1
    requires PredictedCap(n, elemSize) * elemSize <= ISIZE_MAX
    ensures PushesSucceed(n, elemSize)
    ensures CapAfterPushes(n, elemSize) == PredictedCap(n, elemSize)
  {
    if n == 1 {
      LeastDoublingUnique(MinNonZeroCap(elemSize), 1, 0);
      FirstPush(elemSize);
    } else {
      PredictedCapMonotone(n, elemSize);
      PushGrowth(n - 1, elemSize);
      PredictedCapStep(n, elemSize);
      LaterPush(n, elemSize, PredictedCap(n - 1, elemSize));
    }
  }
}
