/** Byte strings and the two slice operations the AES-GCM wrapper relies on. */
module Bytes {

  /** An unsigned 8-bit value (Rust's `u8`). */
  newtype byte = x: int | 0 <= x < 0x100

  /** A byte slice or the contents of a byte vector. */
  type Bytes = seq<byte>

  /** A sequence of `n` zero bytes. */
  function Zeros(n: nat): (r: Bytes)
    ensures |r| == n
    ensures forall i :: 0 <= i < n ==> r[i] == 0
  {
    seq(n, _ => 0 as byte)
  }

  /** Splits a slice into the part before `mid` and the part from `mid` on
      (Rust's `split_at`, which panics when `mid` exceeds the length). */
  function SplitAt(s: Bytes, mid: nat): (r: (Bytes, Bytes))
    requires mid <= |s|
    ensures |r.0| == mid && |r.1| == |s| - mid
    ensures r.0 + r.1 == s
  {
    (s[..mid], s[mid..])
  }

  /** Adds one to the byte at position `i`, wrapping from 0xff to 0x00. */
  function Tamper(s: Bytes, i: nat): (r: Bytes)
    requires i < |s|
    ensures |r| == |s|
    ensures r[i] != s[i]
    ensures forall j :: 0 <= j < |s| && j != i ==> r[j] == s[j]
  {
    s[i := ((s[i] as int + 1) % 0x100) as byte]
  }
}
