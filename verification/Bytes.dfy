/** Bytes of memory and of files. */
module Bytes {

  type Byte = x: nat | x < 256

  const WORD_LIMIT: nat := 0x1_0000_0000

  /** Two's complement of a word. */
  function Signed32(v: nat): int {
    if v >= 0x8000_0000 then v - WORD_LIMIT else v
  }

  function Zeros(n: nat): (z: seq<Byte>)
    ensures |z| == n && forall i :: 0 <= i < n ==> z[i] == 0
  {
    seq(n, _ => 0)
  }
}
