/**
 * Bytes and nibbles as the C program sees them (`uint8_t`), and the unsigned
 * big-endian value of a byte string.
 */
module Bytes {

  /** An `uint8_t`. */
  type byte = x: int | 0 <= x < 256

  /** A 4-bit half of a byte; also one entry of the parsed pattern. */
  type Nibble = x: int | 0 <= x < 16

  /** 256^n, the number of values an n-byte string can hold. */
  function Pow256(n: nat): (r: nat)
    ensures r >= 1
  {
    if n == 0 then 1 else 256 * Pow256(n - 1)
  }

  /** Unsigned big-endian value of `s`: the first byte is the most significant. */
  function ToNat(s: seq<byte>): (v: nat)
    ensures v < Pow256(|s|)
  {
    if s == [] then 0
    else
      var v' := ToNat(s[..|s| - 1]);
      assert v' * 256 + s[|s| - 1] < Pow256(|s| - 1) * 256 by {
        assert v' <= Pow256(|s| - 1) - 1;
      }
      v' * 256 + s[|s| - 1]
  }

  /** `n` zero bytes. */
  function Zeros(n: nat): (r: seq<byte>)
    ensures |r| == n && forall i :: 0 <= i < n ==> r[i] == 0
  {
    seq(n, _ => 0)
  }
}
