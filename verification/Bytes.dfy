/** Machine integers of the firmware and of the host tools. */
module Bytes {
  type byte = x: int | 0 <= x < 0x100
  type word16 = x: int | 0 <= x < 0x1_0000
  type word32 = x: int | 0 <= x < 0x1_0000_0000

  const TWO32: int := 0x1_0000_0000

  datatype Option<+T> = None | Some(value: T)

  /** A sum or difference of two 16-bit values, in 16 bits. */
  function Wrap16(x: int): word16
    requires -0x1_0000 <= x < 0x2_0000
  {
    if x < 0 then x + 0x1_0000 else if x < 0x1_0000 then x else x - 0x1_0000
  }

  /** The 16-bit value of two bytes. */
  function Word(lo: byte, hi: byte): word16 {
    hi as int * 0x100 + lo
  }

  function Blank(n: nat): (s: seq<byte>)
    ensures |s| == n && forall i :: 0 <= i < n ==> s[i] == 0xFF
  {
    seq(n, _ => 0xFF)
  }
}
