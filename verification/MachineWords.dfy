// The unsigned integers of the 32-bit build.
module MachineWords {

  const HALF := 0x1_0000
  const WORD := 0x1_0000_0000

  type Byte = b: int | 0 <= b < 256
  type Half = h: nat | h < HALF
  type Word = w: nat | w < WORD
}
