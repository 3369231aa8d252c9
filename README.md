# tx-runtime in Dafny

A model of the runtime core of the `tx` language (crate `tx-runtime`) with the
properties it promises. The model covers four parts:

- **The instrumented allocator** (`Alloc`). It is a proxy that counts the net
  bytes handed out, wrapping at 2^64.
- **The raw buffer** (`RawDynArray`). It owns a capacity and grows it by
  doubling with a minimum first capacity. It panics for zero-sized elements and
  for layouts over `isize::MAX` bytes.
- **The typed growable array** (`DynArray`). It offers push, pop, insert,
  remove, resize, slice view and destroy, plus its consuming iterator
  (`RawValIter`, `IntoIter`).
- **The bytecode chunk** (`Chunk`). It holds a byte stream, a constant pool
  with first-occurrence interning, a run-length line table with a
  binary-search lookup, and little-endian multi-byte operands. The opcode set
  and its operand-width and stack-effect tables come with it.

Files:

| file | module | what it models |
|---|---|---|
| `prelude.dfy` | `Prelude` | 64-bit `usize`, bytes, wrapping add/sub, panics as values |
| `allocator.dfy` | `Allocator` | `allocator.rs` |
| `raw_dyn_array.dfy` | `RawDynArrays` | `RawDynArray` of `dyn_array.rs` |
| `dyn_array.dfy` | `DynArrays` | `DynArray`, `RawValIter`, `IntoIter` of `dyn_array.rs` |
| `opcodes.dfy` | `Opcodes` | `opcodes.rs` |
| `chunk.dfy` | `Chunks` | `chunk.rs` |

How the source is represented:

- **Panics.** Every panic the source can raise becomes a failure value
  (`Outcome.Fail` / `Result.Err` carrying a `Panic`). This covers `assert!`,
  `debug_assert!`, debug-build integer overflow and out-of-bounds indexing.
  One exception: the out-of-range table index in `get_num_operands` and
  `get_stack_effect` is `Option.None`.
  Each contract says exactly which inputs fail and what the state is otherwise.
  The source is debug-built: its checks that only exist under
  `debug_assertions` are part of the model.
- **Word size and element size.** `usize` is 64 bits. The element size
  `size_of::<T>()` is a field `elemSize` of the buffer, independent of the
  Dafny element type.
- **Contents and memory.** An array's contents are a sequence `elems` of
  length `len`. Memory is visible only through the allocator's counter, via
  `Footprint(cap, elemSize)`. For a chunk, `Charged(alloc, c0, b0)` says
  that the counter has moved from `c0` by exactly the change in the chunk's
  bytes since they were `b0`, modulo 2^64. The state-changing chunk methods
  ensure it with `c0` and `b0` taken at the call.
- **Allocator identity.** The debug-only check that the caller passes the
  buffer's own allocator is a precondition. It compares against a ghost
  back-reference.

## Model

| member | source | states |
|---|---|---|
| `Allocator.Alloc.constructor` | crates/tx-runtime/src/allocator.rs:12-17 | the counter starts at zero |
| `Allocator.Alloc.AllocatedBytes` | crates/tx-runtime/src/allocator.rs:19-21 | returns the counter and changes nothing |
| `Allocator.Alloc.Allocate` | crates/tx-runtime/src/allocator.rs:25-29 | the counter grows by the layout size modulo 2^64, whatever the inner allocator does |
| `Allocator.Alloc.AllocateZeroed` | crates/tx-runtime/src/allocator.rs:31-38 | counted exactly like `allocate` |
| `Allocator.Alloc.Deallocate` | crates/tx-runtime/src/allocator.rs:40-44 | the counter shrinks by the layout size modulo 2^64 |
| `Allocator.Alloc.Grow` | crates/tx-runtime/src/allocator.rs:46-57 | the counter grows by `new.wrapping_sub(old)` modulo 2^64; without wrap, by exactly `new - old` |
| `Allocator.Alloc.GrowZeroed` | crates/tx-runtime/src/allocator.rs:59-70 | counted exactly like `grow` |
| `Allocator.Alloc.Shrink` | crates/tx-runtime/src/allocator.rs:72-83 | the counter shrinks by `old.wrapping_sub(new)` modulo 2^64 |
| `Allocator.AllocateThenDeallocateRestores` | crates/tx-runtime/src/allocator.rs:25-44 | allocate(L) then deallocate(L) restores every counter value, wrap included |
| `Allocator.GrowThenShrinkRestores` | crates/tx-runtime/src/allocator.rs:46-83 | grow(o→n) then shrink(n→o) restores the counter, whichever size is larger |
| `Allocator.AllocateDeallocate` | crates/tx-runtime/src/allocator.rs:25-44 | the two calls on a live allocator leave its counter unchanged |
| `Allocator.GrowShrink` | crates/tx-runtime/src/allocator.rs:46-83 | the two calls on a live allocator leave its counter unchanged |
| `RawDynArrays.MinNonZeroCap` | crates/tx-runtime/src/dyn_array.rs:23-29 | the first capacity is at least 1: 8 exactly for one-byte elements, 1 exactly for elements over 1 KiB, 4 otherwise |
| `RawDynArrays.NewCap` | crates/tx-runtime/src/dyn_array.rs:77-80 | the grown capacity is at least the required one, at least double the old one and at least `MIN_NON_ZERO_CAP`, and equals one of the three |
| `RawDynArrays.GrowResult` | crates/tx-runtime/src/dyn_array.rs:72-89 | the panic `grow` raises, one of "capacity overflow", the addition overflow and "Allocation too large"; when there is none, the grown capacity satisfies the capacity invariant |
| `RawDynArrays.ReserveResult` | crates/tx-runtime/src/dyn_array.rs:67-69 | the fast path never panics: a failing reserve always asked for more than the capacity |
| `RawDynArrays.ReservedCap` | crates/tx-runtime/src/dyn_array.rs:67-69 | reserve never lowers the capacity |
| `RawDynArrays.RawDynArray.constructor` | crates/tx-runtime/src/dyn_array.rs:31-42 | capacity `usize::MAX` for zero-sized elements, 0 otherwise; nothing is allocated |
| `RawDynArrays.RawDynArray.Reserve` | crates/tx-runtime/src/dyn_array.rs:45-70 | grows only when `additional > cap.wrapping_sub(len)`, and otherwise changes nothing; capacity never decreases; the counter moves by exactly the footprint change |
| `RawDynArrays.RawDynArray.Grow` | crates/tx-runtime/src/dyn_array.rs:72-103 | panics for zero-sized elements, on overflow of `len + additional` and for layouts over `isize::MAX`; otherwise the new capacity is `NewCap`, asked of `allocate` from capacity 0 and of `grow` otherwise |
| `RawDynArrays.RawDynArray.Destroy` | crates/tx-runtime/src/dyn_array.rs:105-114 | deallocates the footprint, which is nothing when the capacity or the element size is 0, and leaves the capacity as it was |
| `RawDynArrays.ReserveProvidesRoom` | crates/tx-runtime/src/dyn_array.rs:67-69 | after a successful reserve, `cap >= len + additional`, capacity has not decreased and the capacity invariant holds |
| `RawDynArrays.ReserveIdempotent` | crates/tx-runtime/src/dyn_array.rs:67-69 | repeating a satisfied reserve, or asking for less, takes the fast path, succeeds and changes nothing |
| `RawDynArrays.ZeroSizedNeverAllocates` | crates/tx-runtime/src/dyn_array.rs:31-42 | for zero-sized elements the capacity stays `usize::MAX`; a reserve fails with "capacity overflow" exactly when `len + additional` exceeds it |
| `RawDynArrays.ReserveFailsOnlyWhenTooLarge` | crates/tx-runtime/src/dyn_array.rs:67-69 | for sized elements reserve fails exactly when it must grow and the required capacity overflows or the grown layout exceeds `isize::MAX` |
| `RawDynArrays.SoleOwnerAfterGrowth` | crates/tx-runtime/src/dyn_array.rs:90-97 | an allocator holding exactly one buffer's footprint still does so after the buffer grows |
| `RawDynArrays.RawDynArray.DropCheckPasses` | crates/tx-runtime/src/dyn_array.rs:117-124 | a buffer that passes the debug `Drop` check holds no memory |
| `RawDynArrays.CapAfterPushes` | crates/tx-runtime/src/dyn_array.rs:156-162 | the capacity after `n` pushes onto a new array, push `i` reserving one slot at length `i`; never above `isize::MAX` |
| `RawDynArrays.PredictedCap` | crates/tx-runtime/src/dyn_array.rs:77-80 | reference for growth: the least `MIN_NON_ZERO_CAP * 2^k` holding `n` elements, at least `n` and at least `MIN_NON_ZERO_CAP` |
| `RawDynArrays.PushGrowth` | crates/tx-runtime/src/dyn_array.rs:77-80 | after `n >= 1` pushes onto a new array of sized elements, none has panicked and the capacity is exactly `PredictedCap(n)`, whenever that capacity's byte size fits `isize` |
| `RawDynArrays.GrowThenDestroyFailsDropCheck` | crates/tx-runtime/src/dyn_array.rs:105-124 | a byte buffer that grew to capacity 8 and was destroyed still has capacity 8, so the debug `Drop` check fails |
| `RawDynArrays.RawDynArray.DestroyAndReset` | crates/tx-runtime/src/dyn_array.rs:105-124 | intended destroy: frees the same bytes and leaves a buffer that passes the `Drop` check |
| `RawDynArrays.GrowThenDestroyAndResetPassesDropCheck` | crates/tx-runtime/src/dyn_array.rs:105-124 | with the intended destroy, the same sequence passes the `Drop` check and returns the counter to 0 |
| `DynArrays.DynArray.constructor` | crates/tx-runtime/src/dyn_array.rs:140-145 | empty, with the raw buffer's initial capacity |
| `DynArrays.DynArray.Deref` | crates/tx-runtime/src/dyn_array.rs:216-221 | the slice has exactly `len` elements, the array's contents |
| `DynArrays.DynArray.Set` | crates/tx-runtime/src/dyn_array.rs:223-227 | an indexed write through `deref_mut` panics and changes nothing when the index is not below `len`; otherwise it changes that one element only |
| `DynArrays.DynArray.Reserve` | crates/tx-runtime/src/dyn_array.rs:152-154 | contents untouched; on success room for `additional` more; the counter moves by the footprint change, so sole ownership is preserved |
| `DynArrays.DynArray.Push` | crates/tx-runtime/src/dyn_array.rs:156-162 | contents become `old + [x]` unless reserving one slot panics, in which case nothing changes; sole ownership is preserved |
| `DynArrays.DynArray.Pop` | crates/tx-runtime/src/dyn_array.rs:164-171 | `None` on an empty array; otherwise the last element, leaving `old[..len-1]` |
| `DynArrays.DynArray.Insert` | crates/tx-runtime/src/dyn_array.rs:173-185 | panics unless `index <= len`, leaving the capacity as it was; otherwise `old[..index] + [x] + old[index..]`, and the capacity is what `reserve(len, 1)` leaves, never lower |
| `DynArrays.DynArray.Remove` | crates/tx-runtime/src/dyn_array.rs:187-199 | panics unless `index < len`; otherwise returns `old[index]` and leaves `old[..index] + old[index+1..]` |
| `DynArrays.DynArray.Resize` | crates/tx-runtime/src/dyn_array.rs:202-213 | ends with `len == new_len`; growing gives `old + [value; new_len - len]` after one reserve, shrinking gives `old[..new_len]`; capacity changes only through that reserve |
| `DynArrays.DynArray.ExtendWith` | crates/tx-runtime/src/dyn_array.rs:206-208 | after the up-front reserve, the pushes of `resize` never reallocate and leave the counter as it was |
| `DynArrays.DynArray.TruncateTo` | crates/tx-runtime/src/dyn_array.rs:210-212 | the pops of `resize` leave exactly the first `new_len` elements |
| `DynArrays.DynArray.Destroy` | crates/tx-runtime/src/dyn_array.rs:147-150 | pops every element, then releases the footprint; a sole owner ends at 0 bytes; the capacity is unchanged |
| `DynArrays.DynArray.IntoIterator` | crates/tx-runtime/src/dyn_array.rs:229-240 | the array is consumed (no longer valid, so it can be neither used nor destroyed again); the iterator takes over the raw buffer and has exactly the array's elements remaining |
| `DynArrays.PushThenPop` | crates/tx-runtime/src/dyn_array.rs:156-171 | a successful push of `x` followed by pop returns `x` and restores the contents |
| `DynArrays.InsertThenRemove` | crates/tx-runtime/src/dyn_array.rs:173-199 | a successful insert of `x` at `i` followed by remove at `i` returns `x` and restores the contents |
| `DynArrays.RawValIter.constructor` | crates/tx-runtime/src/dyn_array.rs:252-266 | the cursor covers the whole slice |
| `DynArrays.RawValIter.Next` | crates/tx-runtime/src/dyn_array.rs:271-286 | `None` exactly when nothing remains; otherwise the first remaining element, which is no longer remaining |
| `DynArrays.RawValIter.NextBack` | crates/tx-runtime/src/dyn_array.rs:297-311 | `None` exactly when nothing remains; otherwise the last remaining element, which is no longer remaining |
| `DynArrays.RawValIter.SizeHint` | crates/tx-runtime/src/dyn_array.rs:288-293 | both bounds equal the number of elements remaining |
| `DynArrays.IntoIter.constructor` | crates/tx-runtime/src/dyn_array.rs:314-317 | holds the raw buffer and the cursor |
| `DynArrays.IntoIter.Next` | crates/tx-runtime/src/dyn_array.rs:326-330 | the cursor's `next`: `None` exactly when nothing remains, and then the cursor stays where it is; otherwise the first remaining element, which is no longer remaining; so no element is yielded twice |
| `DynArrays.IntoIter.NextBack` | crates/tx-runtime/src/dyn_array.rs:337-341 | the cursor's `next_back`: `None` exactly when nothing remains, and then the cursor stays where it is; otherwise the last remaining element, which is no longer remaining |
| `DynArrays.IntoIter.SizeHint` | crates/tx-runtime/src/dyn_array.rs:332-334 | exact: the number of elements remaining |
| `DynArrays.IntoIter.Destroy` | crates/tx-runtime/src/dyn_array.rs:319-324 | drains every remaining element front first, then releases the raw buffer's footprint |
| `Opcodes.GetNumOperands` | crates/tx-runtime/src/opcodes.rs:42-44 | defined exactly for declared opcodes, with a width in {0, 1, 2, 3} |
| `Opcodes.GetStackEffect` | crates/tx-runtime/src/opcodes.rs:46-48 | defined exactly for declared opcodes, with an effect in {-1, 0, 1} |
| `Opcodes.ToByte` | crates/tx-runtime/src/opcodes.rs:51-55 | the byte is the opcode's number unchanged |
| `Opcodes.NumberingFollowsDeclarationOrder` | crates/tx-runtime/src/opcodes.rs:3-20 | 41 opcodes numbered from CONSTANT = 0 to RETURN = 40 in declaration order; both tables have one entry per opcode |
| `Opcodes.LongFormFollowsShortForm` | crates/tx-runtime/src/opcodes.rs:57-100 | every `X_LONG` directly follows `X`, `X` has width 1 and `X_LONG` width 3, and both have the same stack effect |
| `Opcodes.OperandWidths` | crates/tx-runtime/src/opcodes.rs:57-100 | width 3 for `_LONG` forms, 2 for JUMP, JUMP_IF_FALSE and LOOP, 1 for the short indexed forms and CALL, 0 for the rest |
| `Opcodes.TableChecks` | crates/tx-runtime/src/opcodes.rs:106-123 | CONSTANT is opcode 0 with width 1 and effect 1, CONSTANT_LONG has width 3 and effect 1, POP has width 0 and effect -1 |
| `Chunks.EncodeLE` | crates/tx-runtime/src/chunk.rs:91-93 | the encoding of an operand into `N` bytes has exactly `N` bytes |
| `Chunks.EncodeLEByteAt` | crates/tx-runtime/src/chunk.rs:91-93 | byte `i` of the little-endian encoding is `(operand >> 8i) & 0xff` |
| `Chunks.DecodeLE` | crates/tx-runtime/src/chunk.rs:88-94 | an `n`-byte string denotes a number below `256^n` |
| `Chunks.DecodeEncode` | crates/tx-runtime/src/chunk.rs:88-94 | decoding the `N`-byte encoding of an operand below `256^N` gives the operand back |
| `Chunks.EncodeDecode` | crates/tx-runtime/src/chunk.rs:88-94 | encoding a decoded byte string gives the string back |
| `Chunks.WriteMultibyteOperand` | crates/tx-runtime/src/chunk.rs:88-94 | panics when `1 << (N * 8)` overflows or the operand does not fit in `N` bytes; otherwise the slice holds the operand's encoding and nothing else changes |
| `Chunks.RecordLine` | crates/tx-runtime/src/chunk.rs:20-34 | `write_line` as written: keeps the table as a prefix and adds at most one entry, `{offset, line}`, and only to a table that already has one |
| `Chunks.LineAtEntry` | crates/tx-runtime/src/chunk.rs:36-45 | in a sorted table an offset maps to the line of the last entry that starts at or before it |
| `Chunks.LineAtBeforeFirst` | crates/tx-runtime/src/chunk.rs:36-45 | in a sorted table no line covers an offset before the first entry |
| `Chunks.LineTableStaysEmpty` | crates/tx-runtime/src/chunk.rs:20-34 | `write_line` on an empty table leaves it empty |
| `Chunks.RecordLineWellFormed` | crates/tx-runtime/src/chunk.rs:20-34 | `write_line` as written, followed by bytes that lengthen the bytecode, keeps the table well formed |
| `Chunks.RecordLineRepeatIsNoop` | crates/tx-runtime/src/chunk.rs:20-34 | writing the same line again adds nothing |
| `Chunks.RecordLineIntendedWellFormed` | crates/tx-runtime/src/chunk.rs:20-34 | intended `write_line` keeps the table sorted, inside the bytecode and with neighbouring lines distinct |
| `Chunks.RecordLineIntendedCovers` | crates/tx-runtime/src/chunk.rs:20-45 | intended `write_line` maps the new instruction's bytes to its line and keeps earlier answers |
| `Chunks.LinesIntendedWellFormed` | crates/tx-runtime/src/chunk.rs:20-34 | the intended table stays well formed through any program |
| `Chunks.LinesIntendedRoundTrip` | crates/tx-runtime/src/chunk.rs:20-45 | with the intended `write_line`, every byte of every instruction maps back to its line |
| `Chunks.LinesAsWrittenEmpty` | crates/tx-runtime/src/chunk.rs:20-34 | as written, a table that starts empty stays empty through any program, so no offset has a line |
| `Chunks.SixInstructionLineTable` | crates/tx-runtime/src/chunk.rs:20-45 | lines 1,1,2,2,2,3: the intended table has three entries and answers 1,1,2,2,2,3; the table as written is empty |
| `Chunks.Position` | crates/tx-runtime/src/chunk.rs:48 | the first index holding the value, or none exactly when the value is absent |
| `Chunks.Intern` | crates/tx-runtime/src/chunk.rs:47-57 | the pool after `write_constant` extends the old one, and the returned index holds the value |
| `Chunks.InternFinds` | crates/tx-runtime/src/chunk.rs:47-57 | the returned index holds the value; old constants keep their indices; the pool grows by one exactly when the value was absent |
| `Chunks.InternIdempotent` | crates/tx-runtime/src/chunk.rs:47-57 | writing the same constant again returns the same index and adds nothing |
| `Chunks.InternNoDuplicates` | crates/tx-runtime/src/chunk.rs:47-57 | a pool without duplicates never gains one |
| `Chunks.InternDistinct` | crates/tx-runtime/src/chunk.rs:47-57 | distinct values get distinct indices |
| `Chunks.ReserveOperands` | crates/tx-runtime/src/chunk.rs:74 | `1 + N` panics on overflow before `reserve` is reached; with enough room the reserve succeeds |
| `Chunks.AppendPadded` | crates/tx-runtime/src/chunk.rs:73-80 | the overflow of `1 + N` or one `reserve(1 + N)`, then the opcode and `N` bytes `0xff`; the push and the resize never reallocate, so the capacity is exactly what `reserve(1 + N)` leaves |
| `Chunks.FillReserved` | crates/tx-runtime/src/chunk.rs:75-80 | into reserved room, the push of the opcode and the resize to `N` bytes `0xff` append exactly those bytes and leave the capacity and the counter unchanged |
| `Chunks.EncodeInstruction` | crates/tx-runtime/src/chunk.rs:73-84 | on the byte array: the panics of `1 + N`, of the reserve and of the operand check in source order; otherwise the bytes become `old + [opcode] + LE_N(operand)`, which decodes back; the capacity is what `reserve(1 + N)` leaves; the counter moves by the array's footprint change |
| `Chunks.Chunk.EmitInstruction` | crates/tx-runtime/src/chunk.rs:73-84 | the same on the chunk's bytecode; the constants and the line table are untouched; `Charged` from any earlier counter and byte total still holds afterwards |
| `Chunks.Chunk.constructor` | crates/tx-runtime/src/chunk.rs:13-17 | three fresh, empty arrays on one allocator, holding no memory |
| `Chunks.Chunk.WriteLine` | crates/tx-runtime/src/chunk.rs:20-34 | adds `{bytecode.len(), line}` only when the table has a last entry with a different line; the table's capacity changes only through that push's reserve |
| `Chunks.Chunk.GetLine` | crates/tx-runtime/src/chunk.rs:36-45 | binary search: the line of the last entry at or before `offset`; panics (`idx - 1` underflow) exactly when the table is empty or `offset` precedes its first entry |
| `Chunks.Chunk.WriteConstant` | crates/tx-runtime/src/chunk.rs:47-57 | the index of the first equal constant when there is one, else the value is pushed and its index returned; this is `Intern`; the pool's capacity changes only through that push's reserve |
| `Chunks.Chunk.WriteByte` | crates/tx-runtime/src/chunk.rs:59-63 | appends one byte, panicking only as `push` does; the capacity is what `reserve(len, 1)` leaves |
| `Chunks.Chunk.WriteInstruction` | crates/tx-runtime/src/chunk.rs:65-85 | panics in source order: the line push, the overflow of `1 + N`, the reserve, the shift and the operand width; otherwise bytecode becomes `old + [opcode] + LE_N(operand)`, which decodes back; lines per `write_line`; constants untouched; well-formedness of the line table preserved; both capacities are what their reserves leave; counter moves by the footprint change |

## Left out

- Raw pointers, `ptr::copy`/`read`/`write`, `mem::forget`, alignment and the address arithmetic for zero-sized types: contents are a sequence, so moves are sequence operations.
- The inner allocator and `handle_alloc_error`: every allocation succeeds; only the counter is modelled.
- `Ordering::Relaxed` atomics of the counter: single-threaded, the counter is a plain field with modular arithmetic.
- The allocator identity checks and the `'a` lifetime: the identity check is a precondition over a ghost back-reference; lifetimes have no counterpart.
- Release builds: overflow of `len + additional` would wrap there instead of panicking; only the debug build is modelled.
- `RawDynArrays.RawDynArray.Grow`: `Layout::array(new_cap).unwrap()` and the "Allocation too large" assertion panic on the same inputs and are one failure value.
- `Drain`: nothing constructs it, and its behaviour is that of `RawValIter`.
- `IntoIter` has no destructor: dropping one without `destroy` leaks its buffer and elements; the model has no implicit drops, so only `destroy` is modelled.
- `Chunks.Chunk.WriteConstant`: `Value` is a type parameter with Dafny equality; the float contents of `Value` (a NaN never equals itself) are not modelled. `value.rs` is not part of this model.
- `Chunks.Chunk.WriteInstruction`: `N` is not checked against `get_num_operands` in the source, and the model does not check it either. `1 + N` is computed at run time, and its overflow is the debug-build panic `AddOverflow`.
- `Chunks.WriteMultibyteOperand`: the `debug_assert_eq!(slice.len(), N)` always holds, because the caller slices exactly `N` bytes; the slice is modelled as a range of the array.
- `Chunks.Chunk.constructor`: the source builds a chunk from its public fields; `size_of::<Value>()` is a parameter, and a line entry counts 16 bytes.
- The debug-build `Drop` of `RawDynArray` is the predicate `DropCheckPasses`; nothing calls it implicitly.
- `src/main.rs` (argument printing), `hash_map.rs` (a skeleton without operations), `vm.rs`, `lib.rs` and `types.rs` (declarations): no logic to model.

## Findings

| source | as written | input that shows it | evidently intended | confidence | as-written member | corrected member |
|---|---|---|---|---|---|---|
| crates/tx-runtime/src/chunk.rs:20-34 | `write_line` adds an entry only when the table already has a last entry, so a table that starts empty never gets one, and every `get_line` then panics on `idx - 1` | six one-byte instructions from lines 1,1,2,2,2,3 on a fresh chunk: the table stays empty | the first call also records `{offset, line}`, giving entries for lines 1, 2, 3 and a lookup that maps every byte to its line | high; not executed | `Chunks.LinesAsWrittenEmpty` | `Chunks.LinesIntendedRoundTrip` |
| crates/tx-runtime/src/dyn_array.rs:105-124 | `destroy` frees the memory but leaves `cap`, while the debug `Drop` asserts `cap == 0` for sized elements | a `u8` buffer reserved to capacity 8 and then destroyed | `destroy` also sets `cap` to 0, so that a destroyed buffer passes the `Drop` check | high; not executed | `RawDynArrays.GrowThenDestroyFailsDropCheck` | `RawDynArrays.RawDynArray.DestroyAndReset` |
