/** The fixed-width integers of the class-file reader and the runtime, and their two's complement readings. */
module Integers {
  type byte = x: int | 0 <= x < 0x100
  type u2 = x: int | 0 <= x < 0x1_0000
  type u4 = x: int | 0 <= x < 0x1_0000_0000
  type u8 = x: int | 0 <= x < 0x1_0000_0000_0000_0000
  type int32 = x: int | -0x8000_0000 <= x < 0x8000_0000
  type int64 = x: int | -0x8000_0000_0000_0000 <= x < 0x8000_0000_0000_0000

  function Signed32(v: u4): int32 {
    if v < 0x8000_0000 then v else v - 0x1_0000_0000
  }

  function Unsigned32(v: int32): u4 {
    if v >= 0 then v else v + 0x1_0000_0000
  }

  function Signed64(v: u8): int64 {
    if v < 0x8000_0000_0000_0000 then v else v - 0x1_0000_0000_0000_0000
  }

  function Unsigned64(v: int64): u8 {
    if v >= 0 then v else v + 0x1_0000_0000_0000_0000
  }
}
