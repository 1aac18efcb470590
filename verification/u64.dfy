/** Rust's `u64`: the unsigned 64-bit integers. */
module U64 {
  const U64_LIMIT: int := 0x1_0000_0000_0000_0000

  newtype u64 = x: int | 0 <= x < U64_LIMIT
}
