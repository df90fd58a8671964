/** Fixed-width unsigned integers, with the wrap-around of the release profile made explicit. */
module Ints {

  const U32_LIMIT: nat := 0x1_0000_0000
  const U64_LIMIT: nat := 0x1_0000_0000_0000_0000

  type u32 = n: nat | n < U32_LIMIT
  type u64 = n: nat | n < U64_LIMIT

  function WrappingAdd32(a: u32, b: u32): u32 {
    (a + b) % U32_LIMIT
  }

  function WrappingAdd64(a: u64, b: u64): u64 {
    (a + b) % U64_LIMIT
  }
}
