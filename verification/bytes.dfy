/** Octets, as carried by Java `byte[]` (read as unsigned values). */
module Bytes {

  type byte = x: int | 0 <= x < 256

  /** `n` copies of the octet `b`. */
  function Repeat(b: byte, n: nat): (r: seq<byte>)
    ensures |r| == n
    ensures forall i :: 0 <= i < n ==> r[i] == b
  {
    if n == 0 then [] else [b] + Repeat(b, n - 1)
  }
}
