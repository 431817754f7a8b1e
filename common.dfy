/** Shared value types: machine integers, bytes and an Option type. */
module Common {

  /** An unsigned byte, as Rust's `u8`. */
  newtype u8 = x: int | 0 <= x < 0x100

  /** An unsigned 64-bit word, as Rust's `u64`. */
  type u64 = x: int | 0 <= x < 0x1_0000_0000_0000_0000

  /** An unsigned 32-bit word, as Rust's `u32`. */
  type u32 = x: int | 0 <= x < 0x1_0000_0000

  /** An unsigned 16-bit word, as Rust's `u16`. */
  type u16 = x: int | 0 <= x < 0x1_0000

  datatype Option<+T> = None | Some(value: T) {
    function GetOr(default: T): T {
      match this
      case Some(v) => v
      case None => default
    }
  }
}
