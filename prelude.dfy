/**
 * Machine-level vocabulary shared by the runtime model: 64-bit word bounds,
 * bytes, wrapping arithmetic, and the failure values that stand for panics.
 */
module Prelude {

  /** 2^64: the modulus of `usize` arithmetic on a 64-bit target. */
  const WORD: int := 0x1_0000_0000_0000_0000
  /** `usize::MAX`. */
  const USIZE_MAX: int := WORD - 1
  /** `isize::MAX`, the largest byte size a single allocation may have. */
  const ISIZE_MAX: int := 0x7fff_ffff_ffff_ffff

  type usize = n: int | 0 <= n < WORD
  type byte = b: int | 0 <= b < 256

  /** The ways the runtime aborts instead of returning. */
  datatype Panic =
    | CapacityOverflow      // `assert!(size_of::<T>() != 0, "capacity overflow")`
    | AllocationTooLarge    // the new layout exceeds `isize::MAX` bytes
    | AddOverflow           // debug-build overflow of a `usize` addition
    | SubOverflow           // debug-build underflow of a `usize` subtraction
    | IndexOutOfBounds      // `assert!(index <= len)` / `assert!(index < len)`
    | OperandTooWide        // `debug_assert!(operand < (1 << (N * 8)))`
    | ShiftOverflow         // debug-build overflow of `1 << (N * 8)`

  datatype Option<+T> = None | Some(value: T)

  datatype Outcome = Pass | Fail(error: Panic)

  datatype Result<+T> = Ok(value: T) | Err(error: Panic)

  /** `a.wrapping_add(b)` on `usize`. */
  function WrappingAdd(a: usize, b: usize): (r: usize)
    ensures r == (a + b) % WORD
  {
    if a + b < WORD then a + b else a + b - WORD
  }

  /** `a.wrapping_sub(b)` on `usize`. */
  function WrappingSub(a: usize, b: usize): (r: usize)
    ensures r == (a - b) % WORD
    ensures b <= a ==> r == a - b
  {
    if b <= a then a - b else a - b + WORD
  }

  /** 256^n, the value of a one followed by `n` zero bytes. */
  function Pow256(n: nat): (p: nat)
    ensures p >= 1
  {
    if n == 0 then 1 else 256 * Pow256(n - 1)
  }

  /** Two wrapping adjustments of a counter in a row are one adjustment by
      their sum. */
  lemma WrapCompose(a: int, x: int, y: int)
    ensures ((a + x) % WORD + y) % WORD == (a + x + y) % WORD
  {
    var q := (a + x) / WORD;
    assert (a + x) % WORD + y == (a + x + y) - q * WORD;
  }

  /** The same, for a counter adjusted from `b0` to `b1` and then to `b2`. */
  lemma WrapChain(c0: int, c1: int, c2: int, b0: int, b1: int, b2: int)
    requires c1 == (c0 + b1 - b0) % WORD && c2 == (c1 + b2 - b1) % WORD
    ensures c2 == (c0 + b2 - b0) % WORD
  {
    WrapCompose(c0, b1 - b0, b2 - b1);
  }

  function Max(a: int, b: int): (m: int) {
    if a < b then b else a
  }
}
