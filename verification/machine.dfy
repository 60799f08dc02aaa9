/** Fixed-width machine integers of the Rust source, as ranges of `int`. */
module MachineInts {

  type i16 = x: int | -0x8000 <= x < 0x8000
  type byte = x: int | 0 <= x < 0x100
  type u16 = x: int | 0 <= x < 0x1_0000
  type u32 = x: int | 0 <= x < 0x1_0000_0000

  /** Wrap-around of an unsigned 32-bit result (`as u32`, or a `u32`
      multiplication in a release build). */
  function WrapU32(x: nat): (r: u32)
    ensures x < 0x1_0000_0000 ==> r == x
  {
    x % 0x1_0000_0000
  }
}
