/** The fixed-width integers of the contract.  Values of these types are mathematical integers
    confined to the machine range, so every arithmetic result has to be checked (or saturated)
    before it can be stored in one. */
module Numeric {
  const I128_MAX: int := 0x7FFF_FFFF_FFFF_FFFF_FFFF_FFFF_FFFF_FFFF
  const I128_MIN: int := -0x8000_0000_0000_0000_0000_0000_0000_0000
  const U64_MAX: int := 0xFFFF_FFFF_FFFF_FFFF
  const U32_MAX: int := 0xFFFF_FFFF

  type I128 = x: int | I128_MIN <= x <= I128_MAX
  type U64 = x: int | 0 <= x <= U64_MAX
  type U32 = x: int | 0 <= x <= U32_MAX

  /** A host vector: its length is a u32. */
  type Vec<T> = s: seq<T> | |s| <= U32_MAX

  predicate FitsI128(x: int) {
    I128_MIN <= x <= I128_MAX
  }

  function SatSubI128(a: I128, b: I128): I128 {
    if a - b < I128_MIN then I128_MIN else if a - b > I128_MAX then I128_MAX else a - b
  }

  function SatAddU64(a: U64, b: U64): U64 {
    if a + b > U64_MAX then U64_MAX else a + b
  }

  function SatIncU32(a: U32): U32 {
    if a == U32_MAX then U32_MAX else a + 1
  }
}
