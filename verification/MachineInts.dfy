/** Integers as the programs' machine holds them. */
module MachineInts {

  /** A `uint8_t` as a number. */
  type uint8 = b: int | 0 <= b < 256

  /** An `int8_t`. */
  type int8 = b: int | -128 <= b < 128

  const TWO_TO_THE_64 := 0x1_0000_0000_0000_0000

  /** Arithmetic on 64-bit unsigned integers drops what does not fit. */
  function Wrap64(x: int): nat { x % TWO_TO_THE_64 }
}
