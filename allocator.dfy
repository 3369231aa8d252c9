/**
 * The instrumented allocator: an accounting proxy that keeps a running,
 * wrapping count of the bytes handed out and forwards every request to an
 * inner allocator. The inner allocator is not modelled; only the counter is.
 */
module Allocator {
  import opened Prelude

  class Alloc {
    /** Net bytes allocated so far, modulo 2^64 (`fetch_add`/`fetch_sub` wrap). */
    var allocatedBytes: usize

    /** `Alloc::new`: the counter starts at zero. */
    constructor ()
      ensures allocatedBytes == 0
    {
      allocatedBytes := 0;
    }

    /** `allocated_bytes()`: a read of the counter that changes nothing. */
    method AllocatedBytes() returns (n: usize)
      ensures n == allocatedBytes
    {
      n := allocatedBytes;
    }

    /** `allocate(layout)`: the requested size is counted before delegating,
        whatever the inner allocator then answers. */
    method Allocate(size: usize)
      modifies this
      ensures allocatedBytes == WrappingAdd(old(allocatedBytes), size)
    {
      allocatedBytes := WrappingAdd(allocatedBytes, size);
    }

    /** `allocate_zeroed(layout)`: counted exactly like `allocate`. */
    method AllocateZeroed(size: usize)
      modifies this
      ensures allocatedBytes == WrappingAdd(old(allocatedBytes), size)
    {
      allocatedBytes := WrappingAdd(allocatedBytes, size);
    }

    /** `deallocate(ptr, layout)`: the freed size is subtracted. */
    method Deallocate(size: usize)
      modifies this
      ensures allocatedBytes == WrappingSub(old(allocatedBytes), size)
    {
      allocatedBytes := WrappingSub(allocatedBytes, size);
    }

    /** `grow(ptr, old, new)`: adds `new - old`, itself computed with `wrapping_sub`. */
    method Grow(oldSize: usize, newSize: usize)
      modifies this
      ensures allocatedBytes == WrappingAdd(old(allocatedBytes), WrappingSub(newSize, oldSize))
      ensures oldSize <= newSize && old(allocatedBytes) + newSize - oldSize < WORD ==>
                allocatedBytes == old(allocatedBytes) + (newSize - oldSize)
    {
      allocatedBytes := WrappingAdd(allocatedBytes, WrappingSub(newSize, oldSize));
    }

    /** `grow_zeroed(ptr, old, new)`: counted exactly like `grow`. */
    method GrowZeroed(oldSize: usize, newSize: usize)
      modifies this
      ensures allocatedBytes == WrappingAdd(old(allocatedBytes), WrappingSub(newSize, oldSize))
    {
      allocatedBytes := WrappingAdd(allocatedBytes, WrappingSub(newSize, oldSize));
    }

    /** `shrink(ptr, old, new)`: subtracts `old - new`, computed with `wrapping_sub`. */
    method Shrink(oldSize: usize, newSize: usize)
      modifies this
      ensures allocatedBytes == WrappingSub(old(allocatedBytes), WrappingSub(oldSize, newSize))
    {
      allocatedBytes := WrappingSub(allocatedBytes, WrappingSub(oldSize, newSize));
    }
  }

  /** Allocating a layout and then deallocating the same layout leaves the
      counter where it was, for every counter value and every size, wrap
      included. */
  lemma AllocateThenDeallocateRestores(counter: usize, size: usize)
    ensures WrappingSub(WrappingAdd(counter, size), size) == counter
  {
  }

  /** Growing from `o` to `n` and shrinking back from `n` to `o` leaves the
      counter where it was, whichever of `o` and `n` is larger. */
  lemma GrowThenShrinkRestores(counter: usize, o: usize, n: usize)
    ensures WrappingSub(WrappingAdd(counter, WrappingSub(n, o)), WrappingSub(n, o)) == counter
  {
  }

  /** The two calls in sequence on a live allocator: the counter is unchanged. */
  method AllocateDeallocate(a: Alloc, size: usize)
    modifies a
    ensures a.allocatedBytes == old(a.allocatedBytes)
  {
    a.Allocate(size);
    a.Deallocate(size);
    AllocateThenDeallocateRestores(old(a.allocatedBytes), size);
  }

  /** `grow(old -> new)` then `shrink(new -> old)` on a live allocator. */
  method GrowShrink(a: Alloc, oldSize: usize, newSize: usize)
    modifies a
    ensures a.allocatedBytes == old(a.allocatedBytes)
  {
    a.Grow(oldSize, newSize);
    a.Shrink(newSize, oldSize);
    GrowThenShrinkRestores(old(a.allocatedBytes), oldSize, newSize);
  }
}
