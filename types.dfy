/** Machine integer widths, byte strings and the optional value used throughout the engine. */
module Types {

  const U32_LIMIT: int := 0x1_0000_0000
  const U64_LIMIT: int := 0x1_0000_0000_0000_0000
  const U128_LIMIT: int := 0x1_0000_0000_0000_0000_0000_0000_0000_0000

  type u8 = x: int | 0 <= x < 0x100
  type u32 = x: int | 0 <= x < U32_LIMIT
  type u64 = x: int | 0 <= x < U64_LIMIT
  /** `Balance` is a `u128`. */
  type u128 = x: int | 0 <= x < U128_LIMIT

  const U32_MAX: u32 := U32_LIMIT - 1
  const U128_MAX: u128 := U128_LIMIT - 1

  type Bytes = seq<u8>
  /** An account identifier is compared byte for byte. */
  type AccountId = Bytes

  datatype Option<+T> = None | Some(value: T) {
    function GetOr(default: T): T {
      match this
      case Some(v) => v
      case None => default
    }
  }
}
