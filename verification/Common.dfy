/** Machine integers and the optional value, for all modules. */
module Common {

  datatype Option<T> = None | Some(value: T)

  const B16: int := 0x1_0000
  const B31: int := 0x8000_0000
  const B32: int := 0x1_0000_0000
  const B64: int := 0x1_0000_0000_0000_0000

  type U16 = x: nat | x < 0x1_0000
  type U32 = x: nat | x < 0x1_0000_0000
  type U64 = x: nat | x < 0x1_0000_0000_0000_0000
}
