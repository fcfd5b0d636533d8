/** Small shared vocabulary: Rust's Option and the u64 range. */
module Common {

  datatype Option<T> = None | Some(value: T)

  /** u64::MAX */
  const U64_MAX: int := 0xFFFF_FFFF_FFFF_FFFF

  /** Rust's u64, as a subset of the unbounded integers. */
  type u64 = x: int | 0 <= x <= U64_MAX
}
