/** The fixed-width unsigned integers of the C sources, with their wrap-around, and the values that
    stand for a NULL pointer and for `enum nova_result`. */
module Words {
  datatype Option<T> = None | Some(value: T)
  datatype Status = Ok | Err | Full | Empty | NotFound

  const TWO_TO_64: nat := 0x1_0000_0000_0000_0000
  const MAX_64: nat := 0xFFFF_FFFF_FFFF_FFFF

  type Byte = x: nat | x < 0x100
  type Word16 = x: nat | x < 0x1_0000
  type Word32 = x: nat | x < 0x1_0000_0000
  type Word64 = x: nat | x < 0x1_0000_0000_0000_0000

  /** `x++` on a 64-bit counter. */
  function Succ64(x: Word64): Word64 {
    if x == MAX_64 then 0 else x + 1
  }

  /** `a` and `b` denote the same 64-bit word. */
  ghost predicate Same64(a: int, b: int) {
    exists wraps: int :: Wraps64(a, b, wraps)
  }

  ghost predicate Wraps64(a: int, b: int, wraps: int) {
    a == b + 0x1_0000_0000_0000_0000 * wraps
  }
}
