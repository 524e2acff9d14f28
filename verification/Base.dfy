/** Fixed-width integers, bytes and the status codes shared by every component. */
module Base {
  type byte = x: int | 0 <= x < 256
  type bytes = seq<byte>
  /** Bytes whose length a `size_t` can hold. */
  type blob = s: seq<byte> | |s| <= 0xFFFF_FFFF_FFFF_FFFF
  type u16 = x: int | 0 <= x < 0x1_0000
  type u32 = x: int | 0 <= x < 0x1_0000_0000
  type u64 = x: int | 0 <= x < 0x1_0000_0000_0000_0000
  type i64 = x: int | -0x8000_0000_0000_0000 <= x < 0x8000_0000_0000_0000

  const U64_MAX: int := 0xFFFF_FFFF_FFFF_FFFF
  const I64_MAX: int := 0x7FFF_FFFF_FFFF_FFFF
  const I64_MIN: int := -0x8000_0000_0000_0000

  datatype Option<+T> = None | Some(value: T)

  datatype Status =
    | OK | PARTIAL | WOULD_BLOCK | CANCELLED | INVALID_ARGUMENT | FORMAT | TRUNCATED
    | UNSUPPORTED | INTEGRITY | TIMELINE | INDEX | RESOURCE | IO | INTERNAL
}
