/** Numbers in little-endian bytes, as PE images and resource files hold them. */
module LittleEndian {
  import opened Prelude

  type Buffer = seq<byte>

  function Le16(n: u16): Buffer { [n % 0x100, n / 0x100] }

  function Le32(n: u32): Buffer { Le16(n % 0x1_0000) + Le16(n / 0x1_0000) }

  function Read16(b: Buffer, at: nat): u16
    requires at + 2 <= |b|
  {
    b[at] as int + 0x100 * b[at + 1] as int
  }

  function Read32(b: Buffer, at: nat): u32
    requires at + 4 <= |b|
  {
    Read16(b, at) as int + 0x1_0000 * Read16(b, at + 2) as int
  }
}
