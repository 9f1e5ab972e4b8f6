/** Machine integers, as the sets of values they hold. */
module MachineWords {
  const TWO16: nat := 0x1_0000
  const TWO32: nat := 0x1_0000_0000
  const TWO64: nat := 0x1_0000_0000_0000_0000

  type Byte = x: int | 0 <= x < 256
  type Dword = x: int | 0 <= x < 0x1_0000_0000
  type Word = x: int | 0 <= x < 0x1_0000_0000_0000_0000
}
