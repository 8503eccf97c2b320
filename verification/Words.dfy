/** The widths of the machine's unsigned integers. */
module Words {
  const TWO_TO_THE_32: nat := 0x1_0000_0000
  const TWO_TO_THE_64: nat := 0x1_0000_0000_0000_0000
}
