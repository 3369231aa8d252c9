/**
 * A compiled chunk: the bytecode, its constant pool and the table that maps
 * bytecode offsets back to source lines. All three live in growable arrays
 * drawn from one allocator.
 */
module Chunks {
  import opened Prelude
  import opened Allocator
  import opened RawDynArrays
  import opened DynArrays
  import opened Opcodes

  // ---------------------------------------------------------------------
  // Multi-byte operands
  // ---------------------------------------------------------------------

  /** Byte `i` of `x` counted from the least significant end:
      `(x >> (i * 8)) & 0xff`. */
  function ByteAt(x: nat, i: nat): (b: byte) {
    (x / Pow256(i)) % 256
  }

  /** The `n`-byte little-endian encoding of `x` (only the low `n` bytes are
      kept): the low byte first, then the encoding of the rest. */
  function EncodeLE(x: nat, n: nat): (bs: seq<byte>)
    ensures |bs| == n
  {
    if n == 0 then [] else [x % 256] + EncodeLE(x / 256, n - 1)
  }

  /** The number a little-endian byte string denotes. */
  function DecodeLE(bs: seq<byte>): (x: nat)
    ensures x < Pow256(|bs|)
  {
    if bs == [] then 0 else bs[0] + 256 * DecodeLE(bs[1..])
  }

  lemma DivUnique(x: nat, d: nat, q: nat, r: nat)
    requires d > 0 && r < d && x == q * d + r
    ensures x / d == q && x % d == r
  {
    var q', r' := x / d, x % d;
    assert (q - q') * d == r' - r;
    if q > q' {
      MulAtLeast(q - q', d);
    } else if q < q' {
      MulAtLeast(q' - q, d);
    }
  }

  lemma MulAtLeast(a: int, d: int)
    requires a >= 1 && d > 0
    ensures a * d >= d
  {
  }

  lemma DivDiv(x: nat, p: nat)
    requires p > 0
    ensures x / 256 / p == x / (256 * p)
  {
    var q, r := x / 256, x % 256;
    var q2, r2 := q / p, q % p;
    assert x == q2 * (256 * p) + (r2 * 256 + r);
    assert r2 * 256 + r < 256 * p;
    DivUnique(x, 256 * p, q2, r2 * 256 + r);
  }

  /** The recursive encoding puts at index `i` exactly the byte the shift
      formula of the writer computes. */
  lemma {:induction false} EncodeLEByteAt(x: nat, n: nat, i: nat)
    requires i < n
    ensures EncodeLE(x, n)[i] == ByteAt(x, i)
    decreases i
  {
    if i > 0 {
      EncodeLEByteAt(x / 256, n - 1, i - 1);
      DivDiv(x, Pow256(i - 1));
    }
  }

  /** Decoding an encoding gives back every operand that fits in `n` bytes. */
  lemma {:induction false} DecodeEncode(x: nat, n: nat)
    requires x < Pow256(n)
    ensures DecodeLE(EncodeLE(x, n)) == x
  {
    if n > 0 {
      assert x / 256 < Pow256(n - 1);
      DecodeEncode(x / 256, n - 1);
      assert EncodeLE(x, n)[1..] == EncodeLE(x / 256, n - 1);
    }
  }

  /** ... and encoding a decoded string gives the string back, so the
      encoding is a bijection between `[0, 256^n)` and `n`-byte strings. */
  lemma {:induction false} EncodeDecode(bs: seq<byte>)
    ensures EncodeLE(DecodeLE(bs), |bs|) == bs
  {
    if bs != [] {
      var x := DecodeLE(bs);
      DivUnique(x, 256, DecodeLE(bs[1..]), bs[0]);
      EncodeDecode(bs[1..]);
    }
  }

  /** `write_multibyte_operand::<N>` applied to `bytes[from..from + N]`:
      panics when `1 << (N * 8)` overflows or the operand does not fit in `N`
      bytes; otherwise writes the operand's bytes, least significant first,
      and leaves every other element alone. */
  method WriteMultibyteOperand(bytes: DynArray<byte>, from: usize, n: usize, operand: usize)
    returns (r: Outcome)
    requires bytes.Valid() && from + n <= bytes.len
    modifies bytes
    ensures bytes.Valid() && bytes.len == old(bytes.len)
    ensures r == if n >= 8 then Fail(ShiftOverflow)
                 else if operand >= Pow256(n) then Fail(OperandTooWide)
                 else Pass
    ensures r.Pass? ==>
              bytes.elems == old(bytes.elems)[..from] + EncodeLE(operand, n) + old(bytes.elems)[from + n..]
    ensures r.Fail? ==> bytes.elems == old(bytes.elems)
  {
    if n >= 8 {
      return Fail(ShiftOverflow);
    }
    if operand >= Pow256(n) {
      return Fail(OperandTooWide);
    }
    ghost var orig := bytes.elems;
    for i := 0 to n
      invariant bytes.Valid() && bytes.len == |orig|
      invariant forall k :: 0 <= k < |orig| ==>
                  bytes.elems[k] == if from <= k < from + i then ByteAt(operand, k - from) else orig[k]
    {
      assert from + i < bytes.len;
      var _ := bytes.Set(from + i, ByteAt(operand, i));
    }
    ghost var expected := orig[..from] + EncodeLE(operand, n) + orig[from + n..];
    forall k | 0 <= k < |orig|
      ensures bytes.elems[k] == expected[k]
    {
      if from <= k < from + n {
        EncodeLEByteAt(operand, n, k - from);
      }
    }
    assert bytes.elems == expected;
    r := Pass;
  }

  /** Overwriting the `0xff` padding after an opcode with the operand's
      bytes leaves the opcode followed by exactly those bytes. */
  lemma SplicePadding(code: seq<byte>, op: byte, pad: seq<byte>, operand: seq<byte>)
    requires |pad| == |operand|
    ensures var padded := code + [op] + pad;
            padded[..|code| + 1] + operand + padded[|code| + 1 + |operand|..] == code + [op] + operand
    ensures (code + [op] + operand)[|code| + 1..] == operand
  {
    var padded := code + [op] + pad;
    assert padded[..|code| + 1] == code + [op];
    assert padded[|code| + 1 + |operand|..] == [];
  }

  // ---------------------------------------------------------------------
  // The line table
  // ---------------------------------------------------------------------

  /** An entry of the line table: the instructions from `offset` on come from
      source line `line`, up to the next entry. */
  datatype LineStart = LineStart(offset: usize, line: usize)
  /** `write_line` adds an entry only when the table has a last entry and its
      line differs from `line`. */
  predicate StartsNewLine(t: seq<LineStart>, line: usize) {
    |t| > 0 && t[|t| - 1].line != line
  }

  /** The table after `write_line` at bytecode length `offset`, as written. */
  function RecordLine(t: seq<LineStart>, offset: usize, line: usize): (t': seq<LineStart>)
    ensures t <= t' && |t'| <= |t| + 1
    ensures |t'| == |t| + 1 ==> t'[|t|] == LineStart(offset, line) && |t| > 0
  {
    if StartsNewLine(t, line) then t + [LineStart(offset, line)] else t
  }

  /** Entry offsets strictly increase: what the binary search relies on. */
  predicate StrictlyIncreasing(t: seq<LineStart>) {
    forall i, j :: 0 <= i < j < |t| ==> t[i].offset < t[j].offset
  }

  /** The table describes a bytecode of length `codeLen`: sorted, every
      entry points at an instruction that exists, and neighbouring entries
      name different lines. */
  predicate WellFormedLines(t: seq<LineStart>, codeLen: nat) {
    && StrictlyIncreasing(t)
    && (forall i :: 0 <= i < |t| ==> t[i].offset < codeLen)
    && (forall i :: 0 < i < |t| ==> t[i - 1].line != t[i].line)
  }

  /** Reference meaning of the table: the line of the last entry that starts
      at or before `offset`, and none when no entry does. */
  function LineAt(t: seq<LineStart>, offset: nat): (r: Option<usize>) {
    if |t| == 0 then None
    else if t[|t| - 1].offset <= offset then Some(t[|t| - 1].line)
    else LineAt(t[..|t| - 1], offset)
  }

  /** In a sorted table, the entry at `k` covers `offset` when it starts at
      or before it and the next one (if any) starts after it. */
  lemma {:induction false} LineAtEntry(t: seq<LineStart>, offset: nat, k: nat)
    requires StrictlyIncreasing(t) && k < |t| && t[k].offset <= offset
    requires k + 1 == |t| || offset < t[k + 1].offset
    ensures LineAt(t, offset) == Some(t[k].line)
  {
    if k + 1 < |t| {
      assert t[|t| - 1].offset >= t[k + 1].offset;
      var init := t[..|t| - 1];
      assert init[k] == t[k];
      assert k + 1 < |init| ==> init[k + 1] == t[k + 1];
      LineAtEntry(init, offset, k);
    }
  }

  /** In a sorted table, no line covers an offset before the first entry. */
  lemma {:induction false} LineAtBeforeFirst(t: seq<LineStart>, offset: nat)
    requires StrictlyIncreasing(t) && (|t| == 0 || offset < t[0].offset)
    ensures LineAt(t, offset) == None
  {
    if |t| > 0 {
      var init := t[..|t| - 1];
      assert |init| > 0 ==> init[0] == t[0];
      LineAtBeforeFirst(init, offset);
    }
  }

  /** As written, `write_line` never records into an empty table, so a table
      that starts empty stays empty and no offset ever has a line. */
  lemma LineTableStaysEmpty(offset: usize, line: usize, query: nat)
    ensures RecordLine([], offset, line) == []
    ensures LineAt(RecordLine([], offset, line), query) == None
  {
  }

  /** Writing the same line again, at any later offset, adds nothing. */
  lemma RecordLineRepeatIsNoop(t: seq<LineStart>, offset: usize, later: usize, line: usize)
    ensures RecordLine(RecordLine(t, offset, line), later, line) == RecordLine(t, offset, line)
  {
  }

  /** `write_line` as written, followed by code that makes the bytecode
      longer, keeps a well-formed table well formed. */
  lemma RecordLineWellFormed(t: seq<LineStart>, codeLen: usize, line: usize, newLen: nat)
    requires WellFormedLines(t, codeLen) && codeLen < newLen
    ensures WellFormedLines(RecordLine(t, codeLen, line), newLen)
  {
  }

  /** The evidently intended `write_line`: an entry is also added when the
      table is still empty. */
  function RecordLineIntended(t: seq<LineStart>, offset: usize, line: usize): seq<LineStart> {
    if |t| == 0 || t[|t| - 1].line != line then t + [LineStart(offset, line)] else t
  }

  /** With the intended `write_line`, writing an instruction of `width >= 1`
      bytes at `offset` keeps the table well formed. */
  lemma RecordLineIntendedWellFormed(t: seq<LineStart>, offset: usize, line: usize, width: nat)
    requires WellFormedLines(t, offset) && width >= 1
    ensures WellFormedLines(RecordLineIntended(t, offset, line), offset + width)
  {
  }

  /** ... makes every byte of the new instruction map to `line`, and changes
      no earlier answer. */
  lemma RecordLineIntendedCovers(t: seq<LineStart>, offset: usize, line: usize, query: nat)
    requires WellFormedLines(t, offset)
    ensures offset <= query ==> LineAt(RecordLineIntended(t, offset, line), query) == Some(line)
    ensures query < offset ==> LineAt(RecordLineIntended(t, offset, line), query) == LineAt(t, query)
  {
    var t' := RecordLineIntended(t, offset, line);
    if t' != t {
      assert t'[..|t'| - 1] == t;
    }
  }

  /** One instruction of a program: the source line it comes from and its
      length in bytes. */
  datatype Emitted = Emitted(line: usize, width: nat)

  /** The bytecode length of a program. */
  function CodeLength(prog: seq<Emitted>): nat {
    if prog == [] then 0 else prog[0].width + CodeLength(prog[1..])
  }

  /** Reference meaning of a program's line information: the line of the
      instruction that byte `query` belongs to. */
  function LineOfByte(prog: seq<Emitted>, query: nat): Option<usize> {
    if prog == [] then None
    else if query < prog[0].width then Some(prog[0].line)
    else LineOfByte(prog[1..], query - prog[0].width)
  }

  /** Past the first instruction, a byte's line is looked up in the rest of
      the program. */
  lemma LineOfByteSkip(prog: seq<Emitted>, query: nat, rest: nat)
    requires prog != [] && query == prog[0].width + rest
    ensures LineOfByte(prog, query) == LineOfByte(prog[1..], rest)
  {
  }

  /** The line table the intended `write_line` builds while the program is
      emitted after `offset` bytes, starting from table `t`. */
  function LinesIntended(t: seq<LineStart>, offset: usize, prog: seq<Emitted>): seq<LineStart>
    requires offset + CodeLength(prog) <= USIZE_MAX
    decreases prog
  {
    if prog == [] then t
    else LinesIntended(RecordLineIntended(t, offset, prog[0].line), offset + prog[0].width, prog[1..])
  }

  /** With the intended `write_line`, the table stays well formed through
      any program of non-empty instructions. */
  lemma {:induction false} LinesIntendedWellFormed(t: seq<LineStart>, offset: usize, prog: seq<Emitted>)
    requires offset + CodeLength(prog) <= USIZE_MAX && WellFormedLines(t, offset)
    requires forall i | 0 <= i < |prog| :: prog[i].width >= 1
    ensures WellFormedLines(LinesIntended(t, offset, prog), offset + CodeLength(prog))
    decreases prog
  {
    if prog != [] {
      var w, rest := prog[0].width, prog[1..];
      var t1 := RecordLineIntended(t, offset, prog[0].line);
      RecordLineIntendedWellFormed(t, offset, prog[0].line, w);
      LinesIntendedWellFormed(t1, offset + w, rest);
    }
  }

  /** The round trip the line table exists for: with the intended
      `write_line`, every byte of every emitted instruction maps back to that
      instruction's line, and earlier answers are kept. */
  lemma {:induction false} LinesIntendedRoundTrip(t: seq<LineStart>, offset: usize, prog: seq<Emitted>, query: nat)
    requires offset + CodeLength(prog) <= USIZE_MAX && WellFormedLines(t, offset)
    requires forall i | 0 <= i < |prog| :: prog[i].width >= 1
    ensures query < offset ==> LineAt(LinesIntended(t, offset, prog), query) == LineAt(t, query)
    ensures offset <= query < offset + CodeLength(prog) ==>
              LineAt(LinesIntended(t, offset, prog), query) == LineOfByte(prog, query - offset)
    decreases prog
  {
    if prog != [] {
      var w, rest := prog[0].width, prog[1..];
      var t1 := RecordLineIntended(t, offset, prog[0].line);
      assert CodeLength(prog) == w + CodeLength(rest);
      assert LinesIntended(t, offset, prog) == LinesIntended(t1, offset + w, rest);
      RecordLineIntendedWellFormed(t, offset, prog[0].line, w);
      LinesIntendedRoundTrip(t1, offset + w, rest, query);
      if query < offset + w {
        RecordLineIntendedCovers(t, offset, prog[0].line, query);
      } else {
        LineOfByteSkip(prog, query - offset, query - (offset + w));
      }
    }
  }

  /** The same emission under the `write_line` as written, from an empty table. */
  function LinesAsWritten(t: seq<LineStart>, offset: usize, prog: seq<Emitted>): seq<LineStart>
    requires offset + CodeLength(prog) <= USIZE_MAX
    decreases prog
  {
    if prog == [] then t
    else LinesAsWritten(RecordLine(t, offset, prog[0].line), offset + prog[0].width, prog[1..])
  }

  /** As written, the table of a chunk that starts empty stays empty through
      any program, so `get_line` has nothing to find. */
  lemma {:induction false} LinesAsWrittenEmpty(offset: usize, prog: seq<Emitted>, query: nat)
    requires offset + CodeLength(prog) <= USIZE_MAX
    ensures LinesAsWritten([], offset, prog) == []
    ensures LineAt(LinesAsWritten([], offset, prog), query) == None
    decreases prog
  {
    if prog != [] {
      LinesAsWrittenEmpty(offset + prog[0].width, prog[1..], query);
    }
  }

  /** Six one-byte instructions from lines 1, 1, 2, 2, 2, 3: the intended
      table has exactly three entries and answers 1, 1, 2, 2, 2, 3 at the
      six offsets; the table as written is empty. */
  lemma SixInstructionLineTable()
    ensures var prog := [Emitted(1, 1), Emitted(1, 1), Emitted(2, 1), Emitted(2, 1), Emitted(2, 1), Emitted(3, 1)];
            && LinesIntended([], 0, prog) == [LineStart(0, 1), LineStart(2, 2), LineStart(5, 3)]
            && LineAt(LinesIntended([], 0, prog), 0) == Some(1)
            && LineAt(LinesIntended([], 0, prog), 1) == Some(1)
            && LineAt(LinesIntended([], 0, prog), 2) == Some(2)
            && LineAt(LinesIntended([], 0, prog), 3) == Some(2)
            && LineAt(LinesIntended([], 0, prog), 4) == Some(2)
            && LineAt(LinesIntended([], 0, prog), 5) == Some(3)
            && LinesAsWritten([], 0, prog) == []
  {
    var prog := [Emitted(1, 1), Emitted(1, 1), Emitted(2, 1), Emitted(2, 1), Emitted(2, 1), Emitted(3, 1)];
    var t := [LineStart(0, 1), LineStart(2, 2), LineStart(5, 3)];
    assert LinesIntended([], 0, prog) == t by {
      assert prog[1..] == [Emitted(1, 1), Emitted(2, 1), Emitted(2, 1), Emitted(2, 1), Emitted(3, 1)];
      assert prog[2..] == [Emitted(2, 1), Emitted(2, 1), Emitted(2, 1), Emitted(3, 1)];
      assert prog[3..] == [Emitted(2, 1), Emitted(2, 1), Emitted(3, 1)];
      assert prog[4..] == [Emitted(2, 1), Emitted(3, 1)];
      assert prog[5..] == [Emitted(3, 1)];
    }
    LinesAsWrittenEmpty(0, prog, 0);
  }

  // ---------------------------------------------------------------------
  // The constant pool
  // ---------------------------------------------------------------------

  /** `iter().position(|&val| val == v)`: the first index holding `v`. */
  function Position<V(==)>(pool: seq<V>, v: V): (r: Option<nat>)
    ensures r.Some? ==> r.value < |pool| && pool[r.value] == v
    ensures r.Some? ==> forall j :: 0 <= j < r.value ==> pool[j] != v
    ensures r.None? <==> v !in pool
  {
    if |pool| == 0 then None
    else if pool[0] == v then Some(0)
    else match Position(pool[1..], v)
      case None => None
      case Some(i) => Some(i + 1)
  }

  /** The pool and index `write_constant` produces when its push succeeds. */
  function Intern<V(==)>(pool: seq<V>, v: V): (r: (seq<V>, nat))
    ensures pool <= r.0 && r.1 < |r.0| && r.0[r.1] == v
  {
    match Position(pool, v)
    case Some(i) => (pool, i)
    case None => (pool + [v], |pool|)
  }

  predicate NoDuplicates<V(==)>(pool: seq<V>) {
    forall i, j :: 0 <= i < j < |pool| ==> pool[i] != pool[j]
  }

  /** Interning keeps every old constant at its index, adds at most `v`, and
      the returned index holds `v`. */
  lemma InternFinds<V>(pool: seq<V>, v: V)
    ensures var (pool', i) := Intern(pool, v);
            i < |pool'| && pool'[i] == v && pool'[..|pool|] == pool &&
            |pool'| == if v in pool then |pool| else |pool| + 1
  {
  }

  /** Interning the same value twice returns the same index and adds nothing. */
  lemma InternIdempotent<V>(pool: seq<V>, v: V)
    ensures Intern(Intern(pool, v).0, v) == Intern(pool, v)
  {
    if v !in pool {
      var p := pool + [v];
      var i := Position(p, v).value;
      assert p[|pool|] == v;
    }
  }

  /** A pool built by interning never holds a value twice. */
  lemma InternNoDuplicates<V>(pool: seq<V>, v: V)
    requires NoDuplicates(pool)
    ensures NoDuplicates(Intern(pool, v).0)
  {
  }

  /** Distinct values get distinct indices. */
  lemma InternDistinct<V>(pool: seq<V>, v: V, w: V)
    requires v != w
    ensures var (p1, i) := Intern(pool, v);
            Intern(p1, w).1 != i
  {
    InternFinds(pool, v);
    var (p1, i) := Intern(pool, v);
    InternFinds(p1, w);
    var (p2, j) := Intern(p1, w);
    assert p2[..|p1|] == p1;
    assert i < |p1| && p2[i] == v;
  }

  /** What `reserve(1 + N)` in `write_instruction` yields: the debug-build
      overflow of `1 + N` comes first, then the panics of `reserve`. */
  function ReserveOperands(cap: usize, len: usize, n: usize, elemSize: nat): (r: Outcome)
    ensures n == USIZE_MAX ==> r == Fail(AddOverflow)
    ensures n < USIZE_MAX && len + 1 + n <= cap ==> r == Pass
  {
    if 1 + n > USIZE_MAX then Fail(AddOverflow) else ReserveResult(cap, len, 1 + n, elemSize)
  }

  /** The middle of `write_instruction::<N>`: one `reserve(1 + N)`, the
      opcode pushed, and `N` placeholder bytes `0xff` added by `resize`; the
      push and the resize then never reallocate. */
  method AppendPadded(bytes: DynArray<byte>, alloc: Alloc, b: byte, n: usize) returns (r: Outcome)
    requires bytes.Valid() && alloc == bytes.buf.allocator
    modifies bytes, bytes.buf, alloc
    ensures bytes.Valid()
    ensures r == ReserveOperands(old(bytes.buf.cap), old(bytes.len), n, bytes.buf.elemSize)
    ensures r.Pass? ==> bytes.elems == old(bytes.elems) + [b] + seq(n, _ => 0xff)
    ensures bytes.buf.cap == if 1 + n > USIZE_MAX then old(bytes.buf.cap)
                             else ReservedCap(old(bytes.buf.cap), old(bytes.len), 1 + n, bytes.buf.elemSize)
    ensures r.Fail? ==> bytes.elems == old(bytes.elems)
    ensures alloc.allocatedBytes == (old(alloc.allocatedBytes) + bytes.Bytes() - old(bytes.Bytes())) % WORD
  {
    if 1 + n > USIZE_MAX {
      return Fail(AddOverflow);
    }
    ghost var expected := ReserveResult(bytes.buf.cap, bytes.len, 1 + n, bytes.buf.elemSize);
    assert expected == ReserveOperands(bytes.buf.cap, bytes.len, n, bytes.buf.elemSize);
    r := bytes.Reserve(alloc, 1 + n);
    assert r == expected;
    if r.Fail? {
      return;
    }
    FillReserved(bytes, alloc, b, n);
  }

  /** The bytecode half of `write_instruction::<N>` on the byte array:
      reserves `1 + N` bytes, appends the opcode and `N` bytes of `0xff`,
      then overwrites those with the operand, which reads back whole. */
  method EncodeInstruction(bytes: DynArray<byte>, alloc: Alloc, opc: OpCode, n: usize, operand: usize)
    returns (r: Outcome)
    requires bytes.Valid() && alloc == bytes.buf.allocator && bytes.buf.elemSize == 1
    modifies bytes, bytes.buf, alloc
    ensures bytes.Valid()
    ensures var reserved := ReserveOperands(old(bytes.buf.cap), old(bytes.len), n, 1);
            r == if reserved.Fail? then reserved
                 else if n >= 8 then Fail(ShiftOverflow)
                 else if operand >= Pow256(n) then Fail(OperandTooWide)
                 else Pass
    ensures r.Pass? ==> bytes.elems == old(bytes.elems) + [ToByte(opc)] + EncodeLE(operand, n)
    ensures r.Pass? ==>
              OpCode(bytes.elems[old(bytes.len)]) == opc &&
              DecodeLE(bytes.elems[old(bytes.len) + 1..]) == operand
    ensures bytes.buf.cap == if 1 + n > USIZE_MAX then old(bytes.buf.cap)
                             else ReservedCap(old(bytes.buf.cap), old(bytes.len), 1 + n, 1)
    ensures alloc.allocatedBytes == (old(alloc.allocatedBytes) + bytes.Bytes() - old(bytes.Bytes())) % WORD
  {
    ghost var code0 := bytes.elems;
    var len := bytes.len;
    r := AppendPadded(bytes, alloc, ToByte(opc), n);
    if r.Fail? {
      return;
    }
    r := WriteMultibyteOperand(bytes, len + 1, n, operand);
    if r.Pass? {
      SplicePadding(code0, ToByte(opc), seq(n, _ => 0xff), EncodeLE(operand, n));
      DecodeEncode(operand, n);
    }
  }

  /** The push of the opcode and the `resize` to `N` bytes of `0xff`, into
      room that is already reserved: neither reallocates. */
  method FillReserved(bytes: DynArray<byte>, alloc: Alloc, b: byte, n: usize)
    requires bytes.Valid() && alloc == bytes.buf.allocator && bytes.len + 1 + n <= bytes.buf.cap
    modifies bytes, bytes.buf, alloc
    ensures bytes.Valid() && bytes.elems == old(bytes.elems) + [b] + seq(n, _ => 0xff)
    ensures bytes.buf.cap == old(bytes.buf.cap) && alloc.allocatedBytes == old(alloc.allocatedBytes)
  {
    ghost var counter, cap := alloc.allocatedBytes, bytes.buf.cap;
    var pushed := bytes.Push(alloc, b);
    assert pushed.Pass? && bytes.buf.cap == cap;
    assert alloc.allocatedBytes == counter by {
      assert alloc.allocatedBytes == (counter + 0) % WORD;
    }
    var len := bytes.len;
    var resized := bytes.Resize(alloc, len + n, 0xff);
    assert resized.Pass? && bytes.buf.cap == cap;
    assert alloc.allocatedBytes == counter by {
      assert alloc.allocatedBytes == (counter + 0) % WORD;
    }
  }

  // ---------------------------------------------------------------------
  // The chunk
  // ---------------------------------------------------------------------

  /** A chunk over constants of type `V`; `valueSize` plays the part of
      `size_of::<Value>()`. */
  class Chunk<V(==)> {
    const bytecode: DynArray<byte>
    const constants: DynArray<V>
    const lines: DynArray<LineStart>

    ghost predicate Valid()
      reads this, bytecode, bytecode.buf, constants, constants.buf, lines, lines.buf
    {
      && bytecode.Valid() && constants.Valid() && lines.Valid()
      && bytecode.buf.elemSize == 1
      && bytecode.buf != constants.buf && bytecode.buf != lines.buf && constants.buf != lines.buf
      && constants.buf.allocator == bytecode.buf.allocator
      && lines.buf.allocator == bytecode.buf.allocator
    }

    /** The allocator every array of the chunk draws from. */
    ghost function SharedAlloc(): Alloc
      reads this, bytecode, bytecode.buf
    {
      bytecode.buf.allocator
    }

    /** Bytes the chunk holds at its allocator. */
    ghost function Bytes(): nat
      reads this, bytecode, bytecode.buf, constants, constants.buf, lines, lines.buf
    {
      bytecode.Bytes() + constants.Bytes() + lines.Bytes()
    }

    /** The allocator's counter has moved from `counter0` by exactly the
        change in the chunk's bytes since they were `bytes0`, wrapping like
        the `usize` it is. */
    ghost predicate Charged(alloc: Alloc, counter0: int, bytes0: int)
      reads this, bytecode, bytecode.buf, constants, constants.buf, lines, lines.buf, alloc
    {
      alloc.allocatedBytes == (counter0 + Bytes() - bytes0) % WORD
    }

    /** An empty chunk: three fresh arrays on one allocator. */
    constructor (alloc: Alloc, valueSize: nat)
      ensures Valid() && SharedAlloc() == alloc && constants.buf.elemSize == valueSize
      ensures fresh(bytecode) && fresh(bytecode.buf) && fresh(constants) && fresh(constants.buf)
      ensures fresh(lines) && fresh(lines.buf)
      ensures bytecode.elems == [] && constants.elems == [] && lines.elems == []
      ensures Bytes() == 0
    {
      bytecode := new DynArray(alloc, 1);
      constants := new DynArray(alloc, valueSize);
      lines := new DynArray(alloc, 16);
    }

    /** `write_line`: records `line` at the current bytecode length when the
        table has a last entry with a different line; never on an empty table. */
    method WriteLine(alloc: Alloc, line: usize) returns (r: Outcome)
      requires Valid() && alloc == SharedAlloc()
      modifies lines, lines.buf, alloc
      ensures Valid()
      ensures r == if StartsNewLine(old(lines.elems), line)
                   then ReserveResult(old(lines.buf.cap), old(lines.len), 1, lines.buf.elemSize)
                   else Pass
      ensures r.Pass? ==> lines.elems == RecordLine(old(lines.elems), bytecode.len, line)
      ensures r.Fail? ==> lines.elems == old(lines.elems)
      ensures lines.buf.cap == if StartsNewLine(old(lines.elems), line)
                               then ReservedCap(old(lines.buf.cap), old(lines.len), 1, lines.buf.elemSize)
                               else old(lines.buf.cap)
      ensures Charged(alloc, old(alloc.allocatedBytes), old(Bytes()))
    {
      if lines.len > 0 && lines.elems[lines.len - 1].line != line {
        r := lines.Push(alloc, LineStart(bytecode.len, line));
      } else {
        r := Pass;
      }
    }

    /** `get_line`: a binary search for the last entry starting at or before
        `offset`; the `idx - 1` underflows when there is none. */
    method GetLine(offset: usize) returns (r: Result<usize>)
      requires Valid() && StrictlyIncreasing(lines.elems)
      ensures r.Err? <==> lines.len == 0 || offset < lines.elems[0].offset
      ensures r.Err? ==> r.error == SubOverflow
      ensures r.Ok? ==> LineAt(lines.elems, offset) == Some(r.value)
      ensures r.Err? ==> LineAt(lines.elems, offset) == None
    {
      var t := lines.elems;
      var lo, hi := 0, lines.len;
      while lo < hi
        invariant 0 <= lo <= hi <= |t|
        invariant forall k :: 0 <= k < lo ==> t[k].offset < offset
        invariant forall k :: hi <= k < |t| ==> t[k].offset > offset
        decreases hi - lo
      {
        var mid := lo + (hi - lo) / 2;
        if t[mid].offset == offset {
          LineAtEntry(t, offset, mid);
          return Ok(t[mid].line);
        } else if t[mid].offset < offset {
          lo := mid + 1;
        } else {
          hi := mid;
        }
      }
      if lo == 0 {
        LineAtBeforeFirst(t, offset);
        return Err(SubOverflow);
      }
      LineAtEntry(t, offset, lo - 1);
      r := Ok(t[lo - 1].line);
    }

    /** `write_constant`: the index of an equal constant when there is one;
        otherwise pushes `v` and returns its index. */
    method WriteConstant(alloc: Alloc, v: V) returns (r: Result<usize>)
      requires Valid() && alloc == SharedAlloc()
      modifies constants, constants.buf, alloc
      ensures Valid()
      ensures v in old(constants.elems) ==> r.Ok?
      ensures r.Ok? ==> (constants.elems, r.value) == Intern(old(constants.elems), v)
      ensures r.Err? ==>
                v !in old(constants.elems) && constants.elems == old(constants.elems) &&
                Fail(r.error) == ReserveResult(old(constants.buf.cap), old(constants.len), 1, constants.buf.elemSize)
      ensures constants.buf.cap == if v in old(constants.elems) then old(constants.buf.cap)
                                   else ReservedCap(old(constants.buf.cap), old(constants.len), 1, constants.buf.elemSize)
      ensures Charged(alloc, old(alloc.allocatedBytes), old(Bytes()))
    {
      var i := 0;
      while i < constants.len
        invariant i <= constants.len
        invariant forall j :: 0 <= j < i ==> constants.elems[j] != v
      {
        if constants.elems[i] == v {
          return Ok(i);
        }
        i := i + 1;
      }
      var pushed := constants.Push(alloc, v);
      if pushed.Fail? {
        return Err(pushed.error);
      }
      r := Ok(constants.len - 1);
    }

    /** `write_byte`: appends one byte to the bytecode. */
    method WriteByte(alloc: Alloc, b: byte) returns (r: Outcome)
      requires Valid() && alloc == SharedAlloc()
      modifies bytecode, bytecode.buf, alloc
      ensures Valid()
      ensures r == ReserveResult(old(bytecode.buf.cap), old(bytecode.len), 1, 1)
      ensures r.Pass? ==> bytecode.elems == old(bytecode.elems) + [b]
      ensures bytecode.buf.cap == ReservedCap(old(bytecode.buf.cap), old(bytecode.len), 1, 1)
      ensures r.Fail? ==> bytecode.elems == old(bytecode.elems)
      ensures Charged(alloc, old(alloc.allocatedBytes), old(Bytes()))
    {
      r := bytecode.Push(alloc, b);
    }

    /** The bytecode half of `write_instruction::<N>`: reserves `1 + N`
        bytes, appends the opcode and `N` bytes of `0xff`, then overwrites
        those with the operand; the constants and the line table are not
        touched. The counter keeps its relation to the chunk's bytes from any
        earlier point (`counter0`, `bytes0`), in particular from the call. */
    method EmitInstruction(alloc: Alloc, n: usize, opc: OpCode, operand: usize,
                           ghost counter0: int, ghost bytes0: int)
      returns (r: Outcome)
      requires Valid() && alloc == SharedAlloc()
      requires Charged(alloc, counter0, bytes0)
      modifies bytecode, bytecode.buf, alloc
      ensures Valid()
      ensures var reserved := ReserveOperands(old(bytecode.buf.cap), old(bytecode.len), n, 1);
              r == if reserved.Fail? then reserved
                   else if n >= 8 then Fail(ShiftOverflow)
                   else if operand >= Pow256(n) then Fail(OperandTooWide)
                   else Pass
      ensures r.Pass? ==> bytecode.elems == old(bytecode.elems) + [ToByte(opc)] + EncodeLE(operand, n)
      ensures r.Pass? ==>
                OpCode(bytecode.elems[old(bytecode.len)]) == opc &&
                DecodeLE(bytecode.elems[old(bytecode.len) + 1..]) == operand
      ensures bytecode.buf.cap == if 1 + n > USIZE_MAX then old(bytecode.buf.cap)
                                  else ReservedCap(old(bytecode.buf.cap), old(bytecode.len), 1 + n, 1)
      ensures Charged(alloc, counter0, bytes0)
    {
      ghost var others := constants.Bytes() + lines.Bytes();
      ghost var counterIn, codeBytesIn, bytesIn := alloc.allocatedBytes, bytecode.Bytes(), Bytes();
      assert bytesIn == codeBytesIn + others;
      r := EncodeInstruction(bytecode, alloc, opc, n, operand);
      assert constants.Bytes() + lines.Bytes() == others;
      ghost var counter1, bytes1 := alloc.allocatedBytes, Bytes();
      assert bytes1 == bytecode.Bytes() + others;
      assert counter1 == (counterIn + bytes1 - bytesIn) % WORD;
      WrapChain(counter0, counterIn, counter1, bytes0, bytesIn, bytes1);
    }

    /** `write_instruction::<N>`: records the line, reserves `1 + N` bytes,
        appends the opcode and `N` bytes of `0xff`, then overwrites those
        with the operand. The operand width is not checked against the
        opcode table. */
    method WriteInstruction(alloc: Alloc, n: usize, line: usize, opc: OpCode, operand: usize)
      returns (r: Outcome)
      requires Valid() && alloc == SharedAlloc()
      modifies bytecode, bytecode.buf, lines, lines.buf, alloc
      ensures Valid()
      ensures var lineResult :=
                if StartsNewLine(old(lines.elems), line)
                then ReserveResult(old(lines.buf.cap), old(lines.len), 1, lines.buf.elemSize)
                else Pass;
              var codeResult := ReserveOperands(old(bytecode.buf.cap), old(bytecode.len), n, 1);
              r == if lineResult.Fail? then lineResult
                   else if codeResult.Fail? then codeResult
                   else if n >= 8 then Fail(ShiftOverflow)
                   else if operand >= Pow256(n) then Fail(OperandTooWide)
                   else Pass
      ensures r.Pass? ==> bytecode.elems == old(bytecode.elems) + [ToByte(opc)] + EncodeLE(operand, n)
      ensures r.Pass? ==>
                OpCode(bytecode.elems[old(bytecode.len)]) == opc &&
                DecodeLE(bytecode.elems[old(bytecode.len) + 1..]) == operand
      ensures r.Pass? ==> lines.elems == RecordLine(old(lines.elems), old(bytecode.len), line)
      ensures lines.buf.cap == if StartsNewLine(old(lines.elems), line)
                               then ReservedCap(old(lines.buf.cap), old(lines.len), 1, lines.buf.elemSize)
                               else old(lines.buf.cap)
      ensures bytecode.buf.cap ==
                if StartsNewLine(old(lines.elems), line) &&
                   ReserveResult(old(lines.buf.cap), old(lines.len), 1, lines.buf.elemSize).Fail?
                then old(bytecode.buf.cap)
                else if 1 + n > USIZE_MAX then old(bytecode.buf.cap)
                else ReservedCap(old(bytecode.buf.cap), old(bytecode.len), 1 + n, 1)
      ensures r.Pass? && old(WellFormedLines(lines.elems, bytecode.len)) ==>
                WellFormedLines(lines.elems, bytecode.len)
      ensures Charged(alloc, old(alloc.allocatedBytes), old(Bytes()))
    {
      ghost var lines0, linesCap0, linesLen0 := lines.elems, lines.buf.cap, lines.len;
      ghost var code0, codeCap0, codeLen0 := bytecode.elems, bytecode.buf.cap, bytecode.len;
      ghost var wellFormed0 := WellFormedLines(lines0, codeLen0);
      ghost var codeResult := ReserveOperands(codeCap0, codeLen0, n, 1);
      r := WriteLine(alloc, line);
      assert bytecode.buf.cap == codeCap0 && bytecode.len == codeLen0 && bytecode.elems == code0;
      if r.Fail? {
        return;
      }
      ghost var lines1, linesCap1 := lines.elems, lines.buf.cap;
      assert lines1 == RecordLine(lines0, codeLen0, line);
      r := EmitInstruction(alloc, n, opc, operand, old(alloc.allocatedBytes), old(Bytes()));
      assert lines.elems == lines1 && lines.buf.cap == linesCap1;
      assert r == if codeResult.Fail? then codeResult
                  else if n >= 8 then Fail(ShiftOverflow)
                  else if operand >= Pow256(n) then Fail(OperandTooWide)
                  else Pass;
      if r.Pass? && wellFormed0 {
        RecordLineWellFormed(lines0, codeLen0, line, bytecode.len);
      }
    }
  }
}
