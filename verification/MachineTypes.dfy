/** Machine integers as ranges, and optional values. */
module MachineTypes {
  const TWO64: nat := 0x1_0000_0000_0000_0000

  type Byte = b: int | 0 <= b < 0x100
  type Word = w: int | 0 <= w < 0x1_0000
  type Dword = d: int | 0 <= d < 0x1_0000_0000
  type Word64 = w: int | 0 <= w < TWO64

  datatype Option<+T> = None | Some(value: T)
}
