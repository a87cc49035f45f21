/** Fixed-size integers and optional values. */
module Values {
  const W32: int := 0x1_0000_0000
  const W64: int := 0x1_0000_0000_0000_0000

  type u32 = x: int | 0 <= x < W32
  type u64 = x: int | 0 <= x < W64

  /** An integer whose arithmetic must not overflow. */
  newtype uint32 = x: int | 0 <= x < 0x1_0000_0000

  datatype Option<T> = None | Some(value: T)
}
