module Bytes {
  type Byte = x: int | 0 <= x < 256

  // Unsigned 64-bit numbers wrap here.
  const TWO_64 := 0x1_0000_0000_0000_0000

  // Every server that has a send buffer gives it this size.
  const SENDBUF_SIZE := 1024
}
