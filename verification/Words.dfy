/** Fixed-width words. The program's unsigned integers are modelled as bounded ints; every place where the
    program wraps around or truncates is written out as a remainder. */
module Words {
  const TWO_16 := 0x1_0000
  const TWO_32 := 0x1_0000_0000
  const TWO_62 := 0x4000_0000_0000_0000
  const TWO_64 := 0x1_0000_0000_0000_0000

  type byte = x: int | 0 <= x < 0x100
  type u16 = x: int | 0 <= x < 0x1_0000
  type u32 = x: int | 0 <= x < 0x1_0000_0000
  type u64 = x: int | 0 <= x < 0x1_0000_0000_0000_0000

  datatype Option<+T> = None | Some(value: T)
}
