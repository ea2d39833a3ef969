/** The fixed-width integer types of Rust, as ranges of mathematical integers. A value stored in
    one of these types is checked to fit; arithmetic on them is unbounded, so a model that needs
    wrap-around or overflow detection writes it out. */
module FixedWidth {
  type byte = bv8
  type u8 = x: int | 0 <= x < 0x100
  type u32 = x: int | 0 <= x < 0x1_0000_0000
  type u64 = x: int | 0 <= x < 0x1_0000_0000_0000_0000
  type i32 = x: int | -0x8000_0000 <= x < 0x8000_0000
  type i64 = x: int | -0x8000_0000_0000_0000 <= x < 0x8000_0000_0000_0000
}
