/**
 * `DynArray`: the typed growable array over a `RawDynArray`, with a logical
 * length. Its first `len` slots hold the elements (`elems`); the slots up to
 * the capacity are uninitialised and not represented. Capacity-affecting
 * operations take the allocator explicitly. `IntoIter` consumes the array
 * through a `[start, end)` cursor (`RawValIter`).
 */
module DynArrays {
  import opened Prelude
  import opened Allocator
  import opened RawDynArrays

  class DynArray<T> {
    const buf: RawDynArray
    var len: usize
    /** The initialised prefix of the buffer: what `deref` shows. */
    var elems: seq<T>
    /** Set once `into_iter` has moved the array out: a consumed array is
        no longer valid, so nothing can use or destroy it again. */
    ghost var consumed: bool

    ghost predicate Valid()
      reads this, buf
    {
      !consumed && buf.Valid() && |elems| == len && len <= buf.cap
    }

    /** Bytes this array holds at its allocator. */
    ghost function Bytes(): nat
      reads this, buf
    {
      Footprint(buf.cap, buf.elemSize)
    }

    /** The allocator holds exactly this array's memory and nothing else. */
    ghost predicate SoleOwnerOf(alloc: Alloc)
      reads this, buf, alloc
    {
      alloc.allocatedBytes == Bytes()
    }

    /** `DynArray::new`: empty, with the raw buffer's initial capacity. */
    constructor (alloc: Alloc, elemSize: nat)
      ensures Valid() && fresh(buf)
      ensures elems == [] && len == 0
      ensures buf.elemSize == elemSize && buf.allocator == alloc
      ensures buf.cap == if elemSize == 0 then USIZE_MAX else 0
    {
      buf := new RawDynArray(alloc, elemSize);
      len := 0;
      elems := [];
      consumed := false;
    }

    /** `deref`: the array seen as a slice of exactly `len` elements. */
    function Deref(): (s: seq<T>)
      reads this, buf
      requires Valid()
      ensures |s| == len
      ensures forall i :: 0 <= i < len ==> s[i] == elems[i]
    {
      elems
    }

    /** `deref_mut` followed by an index assignment: an index outside the
        slice panics and changes nothing; otherwise only the one element
        changes. */
    method Set(i: nat, x: T) returns (r: Outcome)
      requires Valid()
      modifies this
      ensures Valid() && len == old(len)
      ensures r == if i < old(len) then Pass else Fail(IndexOutOfBounds)
      ensures elems == if i < old(len) then old(elems)[i := x] else old(elems)
    {
      if i >= len {
        return Fail(IndexOutOfBounds);
      }
      elems := elems[i := x];
      r := Pass;
    }

    /** `reserve`: room for `additional` more elements; contents untouched. */
    method Reserve(alloc: Alloc, additional: usize) returns (r: Outcome)
      requires Valid() && alloc == buf.allocator
      modifies buf, alloc
      ensures Valid() && elems == old(elems) && len == old(len)
      ensures r == ReserveResult(old(buf.cap), len, additional, buf.elemSize)
      ensures buf.cap == ReservedCap(old(buf.cap), len, additional, buf.elemSize)
      ensures r.Pass? ==> buf.cap >= len + additional
      ensures alloc.allocatedBytes == (old(alloc.allocatedBytes) + Bytes() - old(Bytes())) % WORD
      ensures old(SoleOwnerOf(alloc)) ==> SoleOwnerOf(alloc)
    {
      ghost var counter := alloc.allocatedBytes;
      r := buf.Reserve(alloc, len, additional);
      if r.Pass? {
        ReserveProvidesRoom(old(buf.cap), len, additional, buf.elemSize);
      }
      if counter == Footprint(old(buf.cap), buf.elemSize) {
        SoleOwnerAfterGrowth(counter, old(buf.cap), buf.cap, buf.elemSize);
      }
    }

    /** `push`: reserves one slot, then appends. */
    method Push(alloc: Alloc, x: T) returns (r: Outcome)
      requires Valid() && alloc == buf.allocator
      modifies this, buf, alloc
      ensures Valid()
      ensures r == ReserveResult(old(buf.cap), old(len), 1, buf.elemSize)
      ensures buf.cap == ReservedCap(old(buf.cap), old(len), 1, buf.elemSize)
      ensures r.Pass? ==> elems == old(elems) + [x] && len == old(len) + 1
      ensures r.Fail? ==> elems == old(elems) && len == old(len)
      ensures alloc.allocatedBytes == (old(alloc.allocatedBytes) + Bytes() - old(Bytes())) % WORD
      ensures old(SoleOwnerOf(alloc)) ==> SoleOwnerOf(alloc)
    {
      r := Reserve(alloc, 1);
      if r.Fail? {
        return;
      }
      elems := elems + [x];
      len := len + 1;
    }

    /** `pop`: `None` on an empty array, otherwise the last element, moved out. */
    method Pop() returns (r: Option<T>)
      requires Valid()
      modifies this
      ensures Valid()
      ensures old(len) == 0 ==> r == None && elems == old(elems) && len == 0
      ensures old(len) > 0 ==>
                r == Some(old(elems)[old(len) - 1]) && elems == old(elems)[..old(len) - 1] &&
                len == old(len) - 1
    {
      if len == 0 {
        r := None;
      } else {
        len := len - 1;
        r := Some(elems[len]);
        elems := elems[..len];
      }
    }

    /** `insert(index, x)`: panics unless `index <= len`; otherwise shifts the
        tail right by one and writes `x` at `index`. */
    method Insert(alloc: Alloc, index: usize, x: T) returns (r: Outcome)
      requires Valid() && alloc == buf.allocator
      modifies this, buf, alloc
      ensures Valid()
      ensures index > old(len) ==> r == Fail(IndexOutOfBounds)
      ensures index <= old(len) ==> r == ReserveResult(old(buf.cap), old(len), 1, buf.elemSize)
      ensures buf.cap == if index <= old(len) then ReservedCap(old(buf.cap), old(len), 1, buf.elemSize)
                         else old(buf.cap)
      ensures r.Pass? ==>
                index <= old(len) && len == old(len) + 1 &&
                elems == old(elems)[..index] + [x] + old(elems)[index..]
      ensures r.Fail? ==> elems == old(elems) && len == old(len)
      ensures alloc.allocatedBytes == (old(alloc.allocatedBytes) + Bytes() - old(Bytes())) % WORD
      ensures old(SoleOwnerOf(alloc)) ==> SoleOwnerOf(alloc)
    {
      if index > len {
        return Fail(IndexOutOfBounds);
      }
      r := Reserve(alloc, 1);
      if r.Fail? {
        return;
      }
      elems := elems[..index] + [x] + elems[index..];
      len := len + 1;
    }

    /** `remove(index)`: panics unless `index < len`; otherwise moves the
        element out and shifts the tail left by one. */
    method Remove(index: usize) returns (r: Result<T>)
      requires Valid()
      modifies this
      ensures Valid()
      ensures index >= old(len) ==> r == Err(IndexOutOfBounds) && elems == old(elems) && len == old(len)
      ensures index < old(len) ==>
                r == Ok(old(elems)[index]) && len == old(len) - 1 &&
                elems == old(elems)[..index] + old(elems)[index + 1..]
    {
      if index >= len {
        return Err(IndexOutOfBounds);
      }
      len := len - 1;
      r := Ok(elems[index]);
      elems := elems[..index] + elems[index + 1..];
    }

    /** `resize(new_len, value)`: when growing, one `reserve` up front and
        then pushes of `value` that never reallocate; when shrinking, pops. */
    method Resize(alloc: Alloc, newLen: usize, value: T) returns (r: Outcome)
      requires Valid() && alloc == buf.allocator
      modifies this, buf, alloc
      ensures Valid()
      ensures old(len) < newLen ==>
                r == ReserveResult(old(buf.cap), old(len), newLen - old(len), buf.elemSize) &&
                buf.cap == ReservedCap(old(buf.cap), old(len), newLen - old(len), buf.elemSize)
      ensures newLen <= old(len) ==> r == Pass && buf.cap == old(buf.cap)
      ensures r.Pass? && old(len) < newLen ==>
                len == newLen && elems == old(elems) + seq(newLen - old(len), _ => value)
      ensures r.Pass? && newLen <= old(len) ==> len == newLen && elems == old(elems)[..newLen]
      ensures r.Fail? ==> elems == old(elems) && len == old(len)
      ensures alloc.allocatedBytes == (old(alloc.allocatedBytes) + Bytes() - old(Bytes())) % WORD
      ensures old(SoleOwnerOf(alloc)) ==> SoleOwnerOf(alloc)
    {
      r := Pass;
      if len < newLen {
        r := Reserve(alloc, newLen - len);
        if r.Fail? {
          return;
        }
        ExtendWith(alloc, newLen, value);
      } else {
        TruncateTo(newLen);
      }
    }

    /** The push loop of `resize` after its `reserve`: none of the pushes
        reallocates, so the allocator is left alone. */
    method ExtendWith(alloc: Alloc, newLen: usize, value: T)
      requires Valid() && alloc == buf.allocator && len <= newLen <= buf.cap
      modifies this, buf, alloc
      ensures Valid() && len == newLen && buf.cap == old(buf.cap)
      ensures elems == old(elems) + seq(newLen - old(len), _ => value)
      ensures alloc.allocatedBytes == old(alloc.allocatedBytes)
    {
      while len < newLen
        invariant Valid() && old(len) <= len <= newLen <= buf.cap == old(buf.cap)
        invariant alloc.allocatedBytes == old(alloc.allocatedBytes)
        invariant elems == old(elems) + seq(len - old(len), _ => value)
        decreases newLen - len
      {
        var pushed := Push(alloc, value);
        assert pushed.Pass?;
      }
    }

    /** The pop loop of `resize`: drops elements from the back down to `newLen`. */
    method TruncateTo(newLen: usize)
      requires Valid() && newLen <= len
      modifies this
      ensures Valid() && len == newLen && elems == old(elems)[..newLen]
    {
      while len > newLen
        invariant Valid() && newLen <= len <= old(len)
        invariant elems == old(elems)[..len]
        decreases len
      {
        var _ := Pop();
      }
    }

    /** `destroy`: pops every element, then destroys the raw buffer. The
        capacity is left as it was. */
    method Destroy(alloc: Alloc)
      requires Valid() && alloc == buf.allocator
      modifies this, alloc
      ensures Valid() && elems == [] && len == 0 && buf.cap == old(buf.cap)
      ensures alloc.allocatedBytes ==
                WrappingSub(old(alloc.allocatedBytes), Footprint(buf.cap, buf.elemSize))
      ensures old(SoleOwnerOf(alloc)) ==> alloc.allocatedBytes == 0
    {
      var popped := Pop();
      while popped.Some?
        invariant Valid() && alloc.allocatedBytes == old(alloc.allocatedBytes)
        invariant popped.None? ==> len == 0
        decreases len, popped.Some?
      {
        popped := Pop();
      }
      buf.Destroy(alloc);
    }

    /** `into_iter`: the array is consumed and can no longer be used; the
        iterator takes over the raw buffer and covers `[0, len)`. */
    method IntoIterator() returns (it: IntoIter<T>)
      requires Valid()
      modifies this
      ensures consumed && !Valid()
      ensures fresh(it) && fresh(it.iter)
      ensures it.buf == buf && it.iter.Valid()
      ensures it.iter.Remaining() == old(elems)
    {
      var iter := new RawValIter(elems);
      it := new IntoIter(buf, iter);
      consumed := true;
    }
  }

  /** `push(x)` then `pop()`: gives back `x` and restores the contents. */
  method PushThenPop<T>(a: DynArray<T>, alloc: Alloc, x: T) returns (r: Outcome, popped: Option<T>)
    requires a.Valid() && alloc == a.buf.allocator
    modifies a, a.buf, alloc
    ensures a.Valid()
    ensures r.Pass? ==> popped == Some(x) && a.elems == old(a.elems) && a.len == old(a.len)
  {
    r := a.Push(alloc, x);
    popped := None;
    if r.Pass? {
      popped := a.Pop();
    }
  }

  /** `insert(i, x)` then `remove(i)`: gives back `x` and restores the
      contents. */
  method InsertThenRemove<T>(a: DynArray<T>, alloc: Alloc, i: usize, x: T) returns (r: Outcome, removed: Result<T>)
    requires a.Valid() && alloc == a.buf.allocator
    modifies a, a.buf, alloc
    ensures a.Valid()
    ensures i > old(a.len) ==> r == Fail(IndexOutOfBounds)
    ensures r.Pass? ==> removed == Ok(x) && a.elems == old(a.elems) && a.len == old(a.len)
  {
    r := a.Insert(alloc, i, x);
    removed := Err(IndexOutOfBounds);
    if r.Pass? {
      removed := a.Remove(i);
      assert a.elems == old(a.elems)[..i] + old(a.elems)[i..];
    }
  }

  /** A consuming cursor over a slice: `start` advances from the front and
      `end` retreats from the back; what lies between them has not been
      yielded yet. */
  class RawValIter<T> {
    /** The memory the cursor walks; elements are read out of it. */
    const slice: seq<T>
    var start: nat
    var end: nat

    ghost predicate Valid()
      reads this
    {
      start <= end <= |slice|
    }

    /** The elements not yet yielded, in order. */
    ghost function Remaining(): seq<T>
      reads this
      requires Valid()
    {
      slice[start..end]
    }

    /** `RawValIter::new`: the cursor covers the whole slice. */
    constructor (slice: seq<T>)
      ensures Valid() && this.slice == slice && Remaining() == slice
    {
      this.slice := slice;
      start := 0;
      end := |slice|;
    }

    /** `next`: `None` exactly when nothing remains; otherwise the first
        remaining element, which is then no longer remaining. */
    method Next() returns (r: Option<T>)
      requires Valid()
      modifies this
      ensures Valid() && end == old(end)
      ensures old(start) == old(end) <==> r == None
      ensures r == None ==> start == old(start)
      ensures r != None ==> r == Some(old(Remaining())[0]) && Remaining() == old(Remaining())[1..]
    {
      if start == end {
        r := None;
      } else {
        r := Some(slice[start]);
        start := start + 1;
      }
    }

    /** `next_back`: `None` exactly when nothing remains; otherwise the last
        remaining element, which is then no longer remaining. */
    method NextBack() returns (r: Option<T>)
      requires Valid()
      modifies this
      ensures Valid() && start == old(start)
      ensures old(start) == old(end) <==> r == None
      ensures r == None ==> end == old(end)
      ensures r != None ==>
                var rem := old(Remaining());
                r == Some(rem[|rem| - 1]) && Remaining() == rem[..|rem| - 1]
    {
      if start == end {
        r := None;
      } else {
        end := end - 1;
        r := Some(slice[end]);
      }
    }

    /** `size_hint`: exact, both bounds equal to the number of elements left. */
    function SizeHint(): (h: (nat, Option<nat>))
      reads this
      requires Valid()
      ensures h.0 == |Remaining()| && h.1 == Some(|Remaining()|)
    {
      (end - start, Some(end - start))
    }
  }

  /** The consuming iterator: the raw buffer it keeps alive and the cursor.
      It has no destructor; only `destroy` releases the buffer. */
  class IntoIter<T> {
    const buf: RawDynArray
    const iter: RawValIter<T>

    constructor (buf: RawDynArray, iter: RawValIter<T>)
      ensures this.buf == buf && this.iter == iter
    {
      this.buf := buf;
      this.iter := iter;
    }

    /** `next`: the cursor's `next`; once exhausted it stays exhausted, so
        no element is yielded twice. */
    method Next() returns (r: Option<T>)
      requires iter.Valid()
      modifies iter
      ensures iter.Valid() && iter.end == old(iter.end)
      ensures old(iter.start) == old(iter.end) <==> r == None
      ensures r == None ==> iter.start == old(iter.start)
      ensures r != None ==>
                r == Some(old(iter.Remaining())[0]) && iter.Remaining() == old(iter.Remaining())[1..]
    {
      r := iter.Next();
    }

    /** `next_back`: the cursor's `next_back`, with the same guarantees. */
    method NextBack() returns (r: Option<T>)
      requires iter.Valid()
      modifies iter
      ensures iter.Valid() && iter.start == old(iter.start)
      ensures old(iter.start) == old(iter.end) <==> r == None
      ensures r == None ==> iter.end == old(iter.end)
      ensures r != None ==>
                var rem := old(iter.Remaining());
                r == Some(rem[|rem| - 1]) && iter.Remaining() == rem[..|rem| - 1]
    {
      r := iter.NextBack();
    }

    function SizeHint(): (h: (nat, Option<nat>))
      reads iter
      requires iter.Valid()
      ensures h.0 == |iter.Remaining()| && h.1 == Some(|iter.Remaining()|)
    {
      iter.SizeHint()
    }

    /** `IntoIter::destroy`: drains what is left, front first, then destroys
        the raw buffer. `dropped` is what the drain consumed, in order. */
    method Destroy(alloc: Alloc) returns (ghost dropped: seq<T>)
      requires iter.Valid() && buf.Valid() && alloc == buf.allocator
      modifies iter, alloc
      ensures iter.Valid() && iter.Remaining() == []
      ensures dropped == old(iter.Remaining())
      ensures alloc.allocatedBytes ==
                WrappingSub(old(alloc.allocatedBytes), Footprint(buf.cap, buf.elemSize))
    {
      dropped := [];
      var x := iter.Next();
      while x.Some?
        invariant iter.Valid() && alloc.allocatedBytes == old(alloc.allocatedBytes)
        invariant x.Some? ==> dropped + [x.value] + iter.Remaining() == old(iter.Remaining())
        invariant x.None? ==> dropped == old(iter.Remaining()) && iter.Remaining() == []
        decreases |iter.Remaining()|, x.Some?
      {
        dropped := dropped + [x.value];
        x := iter.Next();
      }
      buf.Destroy(alloc);
    }
  }
}
