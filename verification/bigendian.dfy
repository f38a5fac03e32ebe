/** Bytes and the unsigned 16-bit values the scanner reads from them. */
module BigEndian {

  type Byte = bv8

  /** An unsigned 16-bit value (Rust's `u16`). */
  newtype u16 = x: int | 0 <= x < 0x1_0000

  /** `u16::from_be_bytes([hi, lo])`: `hi` is the high-order byte, `lo` the low-order one. */
  function FromBytes16(hi: Byte, lo: Byte): (r: u16)
    ensures r as int / 256 == hi as int
    ensures r as int % 256 == lo as int
  {
    (hi as int * 256 + lo as int) as u16
  }
}
