/**
 * Little-endian byte encoding of unsigned integers, as done by Rust's
 * `to_le_bytes` and `from_le_bytes`: the least significant byte comes first.
 */
module LittleEndian {
  import opened Storage

  /** 256^n: one more than the largest value that fits in n bytes. */
  function Pow256(n: nat): (p: nat)
    ensures p > 0
  {
    if n == 0 then 1 else 256 * Pow256(n - 1)
  }

  lemma Pow256OfU64Size()
    ensures Pow256(U64_SIZE) == U64_MODULUS
  {
  }

  /** The n bytes of x, least significant first. */
  function ToLE(x: nat, n: nat): (bytes: seq<u8>)
    requires x < Pow256(n)
    ensures |bytes| == n
  {
    if n == 0 then []
    else
      assert x / 256 < Pow256(n - 1);
      [x % 256] + ToLE(x / 256, n - 1)
  }

  /** The value of a little-endian byte string. */
  function FromLE(bytes: seq<u8>): (x: nat)
    ensures x < Pow256(|bytes|)
  {
    if bytes == [] then 0
    else bytes[0] + 256 * FromLE(bytes[1..])
  }

  lemma {:induction false} FromLEOfToLE(x: nat, n: nat)
    requires x < Pow256(n)
    ensures FromLE(ToLE(x, n)) == x
  {
    if n > 0 {
      var bytes := ToLE(x, n);
      assert bytes[1..] == ToLE(x / 256, n - 1);
      FromLEOfToLE(x / 256, n - 1);
    }
  }

  lemma {:induction false} ToLEOfFromLE(bytes: seq<u8>)
    ensures ToLE(FromLE(bytes), |bytes|) == bytes
  {
    if bytes != [] {
      var x := FromLE(bytes);
      assert x % 256 == bytes[0] && x / 256 == FromLE(bytes[1..]);
      ToLEOfFromLE(bytes[1..]);
    }
  }

  /** `u64::to_le_bytes` (and `usize::to_le_bytes` on a 64-bit target). */
  function ToLeBytes(x: u64): (bytes: seq<u8>)
    ensures |bytes| == U64_SIZE
    ensures FromLE(bytes) == x
  {
    Pow256OfU64Size();
    FromLEOfToLE(x, U64_SIZE);
    ToLE(x, U64_SIZE)
  }

  /** `u64::from_le_bytes`: defined on exactly eight bytes. */
  function FromLeBytes(bytes: seq<u8>): (x: u64)
    requires |bytes| == U64_SIZE
    ensures ToLeBytes(x) == bytes
  {
    Pow256OfU64Size();
    ToLEOfFromLE(bytes);
    FromLE(bytes)
  }

  /** Decoding after encoding gives the value back. */
  lemma FromLeBytesOfToLeBytes(x: u64)
    ensures FromLeBytes(ToLeBytes(x)) == x
  {
  }
}
