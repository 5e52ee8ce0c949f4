/** Bit-serial CRC-32 with the reflected polynomial 0xEDB88320 (IEEE 802.3,
    clause 3.2.9), and the algebra of its step. */
module CrcSteps {
  const POLYNOMIAL: bv32 := 0xedb8_8320

  /** One bit of division: shift out the low bit and subtract the polynomial if it was set. */
  function BitStep(x: bv32): bv32 {
    if x & 1 == 1 then (x >> 1) ^ POLYNOMIAL else x >> 1
  }

  /** The eight steps of one byte. */
  function ByteStep(x: bv32): bv32 {
    BitStep(BitStep(BitStep(BitStep(BitStep(BitStep(BitStep(BitStep(x))))))))
  }
}
