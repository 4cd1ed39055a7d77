/** The word sizes of the machine: values of unsigned 32- and 64-bit words, and of an int, are below these. */
module Words {
  const S31: nat := 0x8000_0000
  const U32: nat := 0x1_0000_0000
  const U64: nat := 0x1_0000_0000_0000_0000
  const S63: nat := 0x8000_0000_0000_0000
}
