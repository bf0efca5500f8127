/** Machine words, as numbers. */
module Words {
  const W64: int := 0x1_0000_0000_0000_0000
  const W63: int := 0x8000_0000_0000_0000
  const W32: int := 0x1_0000_0000

  type U64 = x: int | 0 <= x < W64
  type U32 = x: int | 0 <= x < W32
  type Byte = b: nat | b < 256
}
