// Bytes, big-endian reads and the few bit operations the protocols need.
module Bytes {
  type byte = x: int | 0 <= x < 256
  type bytes = seq<byte>

  datatype Option<+T> = None | Some(value: T)

  function Min(a: int, b: int): int { if a <= b then a else b }

  function Max(a: int, b: int): int { if a >= b then a else b }

  function U16(b: bytes, off: nat): (v: nat)
    requires off + 2 <= |b|
    ensures v < 0x1_0000
  {
    b[off] as int * 256 + b[off + 1]
  }

  function U32(b: bytes, off: nat): (v: nat)
    requires off + 4 <= |b|
    ensures v < 0x1_0000_0000
  {
    U16(b, off) * 0x1_0000 + U16(b, off + 2)
  }

  // The two's complement reading of a 32-bit word.
  function S32(v: nat): int { if v < 0x8000_0000 then v else v - 0x1_0000_0000 }

  // `b & mask` for a mask with a single bit set.
  predicate Bit(b: byte, mask: nat)
    requires mask > 0
  {
    (b as int / mask) % 2 == 1
  }

  // A stream that arrived in pieces.
  ghost function Flat(chunks: seq<bytes>): bytes { if |chunks| == 0 then [] else chunks[0] + Flat(chunks[1..]) }

  function Repeat<T>(v: T, n: nat): (s: seq<T>)
    ensures |s| == n && forall i :: 0 <= i < n ==> s[i] == v
  {
    seq(n, _ => v)
  }
}
