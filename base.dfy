/** Shared value types: bytes, fixed-width unsigned integers, Option and Result. */
module Base {

  /** One octet on the wire. */
  type byte = x: int | 0 <= x < 256

  /** Rust's `u16`, `u32` and `u128`: non-negative integers below 2^16, 2^32, 2^128. */
  type u16 = x: int | 0 <= x < 0x1_0000
  type u32 = x: int | 0 <= x < 0x1_0000_0000
  type u128 = x: int | 0 <= x < 0x1_0000_0000_0000_0000_0000_0000_0000_0000

  /** `u32::MAX`, the largest payload length a frame header can carry. */
  const U32Max: int := 0xFFFF_FFFF

  /** `u64::MAX`, the largest integer serde_json's value serializer accepts by default. */
  const U64Max: int := 0xFFFF_FFFF_FFFF_FFFF

  datatype Option<+T> = None | Some(value: T) {
    function GetOr(default: T): T {
      match this
      case Some(v) => v
      case None => default
    }
  }

  datatype Result<+T, +E> = Ok(value: T) | Err(error: E)
}
