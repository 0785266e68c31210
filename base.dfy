/** Machine integer ranges and the Option/Result wrappers used throughout the model. */
module Base {

  /** An unsigned 8-bit value, as Rust's `u8`. */
  type byte = x: int | 0 <= x < 256

  /** An unsigned 16-bit value, as Rust's `u16`. */
  type u16 = x: int | 0 <= x < 0x1_0000

  /** The value of two octets read big-endian, as `u16::from_be_bytes([hi, lo])`. */
  function BigEndian16(hi: byte, lo: byte): (v: u16)
    ensures v / 256 == hi && v % 256 == lo
  {
    hi as int * 256 + lo
  }

  datatype Option<+T> = None | Some(value: T)

  /** Rust's `Result<T, E>`. */
  datatype Result<+T, +E> = Ok(value: T) | Err(error: E)
}
