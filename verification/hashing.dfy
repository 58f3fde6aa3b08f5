/**
 Shared vocabulary of the Merkle tree model: the hash width, bytes, and the
 external primitives the tree code calls but does not define.
 */
module Hashing {

  /** Hash width in bytes and in bits (`H_BYTES`, `H_BITS`). */
  const HBytes: nat := 16
  const HBits: nat := 128

  type byte = b: int | 0 <= b < 256

  /** Powers of two; `x >> j` on a non-negative value is `x / Pow2(j)`. */
  function Pow2(k: nat): (p: nat)
    ensures p >= 1
  {
    if k == 0 then 1 else 2 * Pow2(k - 1)
  }

  /**
   The primitives the tree code treats as foreign:
   - `shake(input, outlen)` stands for SHAKE256 with an output of `outlen` bytes;
   - `ser(v)` stands for the bytes the combiner hands to SHAKE256 when it
     casts its vector of C `int`s to an `unsigned char*`.
   */
  datatype Hasher = Hasher(shake: (seq<byte>, nat) -> seq<byte>, ser: seq<int> -> seq<byte>)
  {
    /** The only property assumed of SHAKE256: it returns as many bytes as asked for. */
    ghost predicate Valid() {
      forall input: seq<byte>, outlen: nat :: |shake(input, outlen)| == outlen
    }
  }

  /** A value readable as a hash: at least `HBytes` bytes are there to read. */
  predicate IsHash(h: seq<byte>) {
    |h| >= HBytes
  }

  /** The hash of a leaf: SHAKE256 over the first `length` bytes of its text. */
  function LeafHash(hs: Hasher, text: seq<byte>, length: nat): (h: seq<byte>)
    requires hs.Valid()
    requires length <= |text|
    ensures |h| == HBytes
  {
    hs.shake(text[..length], HBytes)
  }
}
