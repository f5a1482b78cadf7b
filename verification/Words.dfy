/** The bytes and words of the source, as numbers. */
module Words {

  newtype byte = x: int | 0 <= x < 256

  /** The values of a 32-bit word. */
  const U32_RANGE := 0x1_0000_0000
}
