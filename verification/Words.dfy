/** Fixed-width words and their little-endian byte form, as encoding/binary's
    LittleEndian lays them out. */
module Words {

  const U32: int := 0x1_0000_0000

  type byte = x: int | 0 <= x < 0x100
  type u16 = x: int | 0 <= x < 0x1_0000
  type u32 = x: int | 0 <= x < 0x1_0000_0000

  datatype Option<+T> = None | Some(value: T)

  function PutU16(v: u16): (b: seq<byte>)
    ensures |b| == 2
  {
    [v % 256, v / 256]
  }

  function PutU32(v: u32): (b: seq<byte>)
    ensures |b| == 4
  {
    [v % 256, v / 0x100 % 256, v / 0x1_0000 % 256, v / 0x100_0000]
  }

  function GetU16(b: seq<byte>): u16
    requires |b| >= 2
  {
    b[0] as int + 256 * (b[1] as int)
  }

  function GetU32(b: seq<byte>): u32
    requires |b| >= 4
  {
    b[0] as int + 0x100 * (b[1] as int) + 0x1_0000 * (b[2] as int) + 0x100_0000 * (b[3] as int)
  }

  /** uint32 subtraction, which wraps below zero. */
  function Sub32(a: u32, b: u32): u32 {
    (a - b) % U32
  }

  lemma GetPutU16(v: u16)
    ensures GetU16(PutU16(v)) == v
  {
  }

  lemma GetPutU32(v: u32)
    ensures GetU32(PutU32(v)) == v
  {
    assert v / 0x100 / 0x100 == v / 0x1_0000;
    assert v / 0x1_0000 / 0x100 == v / 0x100_0000;
  }
}
