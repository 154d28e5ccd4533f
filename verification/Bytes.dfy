// Bytes, fixed-width unsigned integers and their big-endian forms.
module Bytes {

  type byte = x: int | 0 <= x < 0x100
  type bytes = seq<byte>
  type u16 = x: int | 0 <= x < 0x1_0000
  type u32 = x: int | 0 <= x < 0x1_0000_0000

  const DOT: byte := 46
  const BACKSLASH: byte := 92

  datatype Option<+T> = None | Some(value: T)

  function Be16(v: u16): (r: bytes)
    ensures |r| == 2 && U16(r[0], r[1]) == v
  {
    [v / 0x100, v % 0x100]
  }

  function Be32(v: u32): (r: bytes)
    ensures |r| == 4 && U32(r[0], r[1], r[2], r[3]) == v
  {
    Be16(v / 0x1_0000) + Be16(v % 0x1_0000)
  }

  function U16(hi: byte, lo: byte): u16 {
    hi * 0x100 + lo
  }

  function U32(b3: byte, b2: byte, b1: byte, b0: byte): u32 {
    U16(b3, b2) * 0x1_0000 + U16(b1, b0)
  }
}
