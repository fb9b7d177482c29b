/** The machine integers the C sources compute with, as subset types: assigning a value outside
    the range is a verification error, so every absence of overflow claimed here is proved. Optional
    values stand for null pointers and not-found codes. */
module CTypes {
  datatype Option<+T> = None | Some(value: T)

  const INT_LIMIT := 0x8000_0000
  const UINT_LIMIT := 0x1_0000_0000
  const SIZE_LIMIT := 0x1_0000_0000_0000_0000

  /** C `int` */
  type CInt = x: int | -INT_LIMIT <= x < INT_LIMIT
  /** C `unsigned` */
  type CUInt = x: int | 0 <= x < UINT_LIMIT
  /** `MDB_ID`, that is `mdb_size_t` */
  type MdbId = x: int | 0 <= x < SIZE_LIMIT

  lemma MulMonotone(x: nat, y: nat, z: nat)
    ensures x <= y ==> x * z <= y * z
  {
  }
}
