/**
 * Typed arrays of the converters (Uint8Array, Uint16Array, Int16Array) and
 * the "a read past the end is 0" rule the source gets from `?? 0`.
 */
module Buffers {
  /** One element of a Uint8Array. */
  type byte = x: int | 0 <= x < 0x100
  /** One element of a Uint16Array. */
  type u16 = x: int | 0 <= x < 0x1_0000
  /** One element of an Int16Array. */
  type i16 = x: int | -0x8000 <= x < 0x8000

  /** `s[k] ?? default`: an index outside the buffer reads as the default. */
  function GetOr<T>(s: seq<T>, k: int, default: T): (r: T)
    ensures 0 <= k < |s| ==> r == s[k]
    ensures k < 0 || |s| <= k ==> r == default
  {
    if 0 <= k < |s| then s[k] else default
  }

  /** A freshly allocated typed array: every element 0. */
  function Zeros(n: nat): (z: seq<byte>)
    ensures |z| == n && forall k :: 0 <= k < n ==> z[k] == 0
  {
    seq(n, _ => 0)
  }
}
