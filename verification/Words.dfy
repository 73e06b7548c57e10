/** Bytes and the sizes of machine words. */
module Words {

  type Byte = x: nat | x < 256

  /** A 32-bit cell as its bit pattern. */
  type Word = x: nat | x < TWO32

  const TWO32 := 0x1_0000_0000
  const TWO63 := 0x8000_0000_0000_0000
  const TWO64 := 0x1_0000_0000_0000_0000
}
