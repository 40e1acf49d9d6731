/** Bytes as they are stored in the buffers of the codec. */
module Bytes {
  type byte = x: int | 0 <= x < 256

  /** The memory that starts at a buffer's first byte.  It is total: what lies behind the buffer is
      there, with unknown contents, which is what C code that reads too far would see. */
  type Memory = nat -> byte

  /** The bytes of s lie in memory from index at on. */
  ghost predicate Holds(mem: Memory, at: nat, s: seq<byte>) {
    forall i :: 0 <= i < |s| ==> mem(at + i) == s[i]
  }

  /** The 2-bit value w or-ed into a byte; the upper six bits stay. */
  function OrLow(b: byte, w: nat): (r: byte)
    requires w <= 3
    ensures b % 4 == 0 ==> r == b + w
  {
    var low := b % 4;
    var bit0 := if low % 2 == 1 || w % 2 == 1 then 1 else 0;
    var bit1 := if low / 2 == 1 || w / 2 == 1 then 2 else 0;
    b - low + bit0 + bit1
  }
}
