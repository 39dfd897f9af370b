/**
  Rust's fixed-width integers and byte strings as the codec uses them.
  A 64-bit target is assumed throughout, so `usize` is eight bytes wide.
 */
module Primitives {

  type byte = x: int | 0 <= x < 0x100

  type u32 = x: int | 0 <= x < 0x1_0000_0000

  type usize = x: int | 0 <= x < 0x1_0000_0000_0000_0000

  /** 2^32: the modulus of an `as u32` cast. */
  const U32_MODULUS: nat := 0x1_0000_0000

  /** isize::MAX on a 64-bit target: no Rust allocation, slice or `String` is longer. */
  const ISIZE_MAX: nat := 0x7FFF_FFFF_FFFF_FFFF

  /** The UTF-8 bytes of a Rust `String`, or any in-memory byte slice. */
  type Str = s: seq<byte> | |s| <= ISIZE_MAX
}
