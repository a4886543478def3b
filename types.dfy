/** The fixed-width C integer types that appear in upb_msg.h, and the
    Option type that stands for the header's nullable pointer results. */
module UpbTypes {

  newtype u16 = x: int | 0 <= x < 0x1_0000
  newtype u32 = x: int | 0 <= x < 0x1_0000_0000
  newtype u64 = x: int | 0 <= x < 0x1_0000_0000_0000_0000
  newtype i32 = x: int | -0x8000_0000 <= x < 0x8000_0000
  newtype i64 = x: int | -0x8000_0000_0000_0000 <= x < 0x8000_0000_0000_0000

  /** Largest value of the C type `int`, taken to be 32 bits wide. */
  const INT_MAX: int := 0x7FFF_FFFF

  /** A result that may be absent: `None` is the header's NULL. */
  datatype Option<T> = None | Some(value: T)
}
