/**
 * Declarations shared by the storage crate: the integer widths it uses,
 * its error kinds and the result and option types that carry them.
 */
module Storage {

  /** One byte of a buffer or of the mapped file. */
  type u8 = x: int | 0 <= x < 256

  /** 2^64: the modulus of `u64` and, on a 64-bit target, of `usize`. */
  const U64_MODULUS: nat := 0x1_0000_0000_0000_0000

  type u64 = x: int | 0 <= x < 0x1_0000_0000_0000_0000

  /** Size in bytes of a `u64`. */
  const U64_SIZE: nat := 8

  /** Errors of the disk layer. */
  datatype DiskError = Locked | InvalidFlushing | CapacityReached

  /** Errors of the byte cursor. */
  datatype CursorError = InvalidRange

  datatype Result<+T, +E> = Ok(value: T) | Err(error: E)

  datatype Option<+T> = None | Some(value: T)

  /** `fetch_add(1)` on a 64-bit atomic counter: wraps from 2^64 - 1 to 0. */
  function WrappingIncrement(b: u64): (r: u64)
    ensures r == (b + 1) % U64_MODULUS
  {
    if b == U64_MODULUS - 1 then 0 else b + 1
  }

  /** `fetch_sub(1)` on a 64-bit atomic counter: wraps from 0 to 2^64 - 1. */
  function WrappingDecrement(b: u64): (r: u64)
    ensures (r + 1) % U64_MODULUS == b
  {
    if b == 0 then U64_MODULUS - 1 else b - 1
  }

  /** An increment followed by a decrement leaves a counter where it was, even across the wrap. */
  lemma DecrementUndoesIncrement(b: u64)
    ensures WrappingDecrement(WrappingIncrement(b)) == b
  {
  }
}
