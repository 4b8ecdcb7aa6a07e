/** Stock types. */
module Common {
  datatype Option<+T> = None | Some(value: T)

  datatype Result<+T, +E> = Ok(value: T) | Err(error: E)

  /** How a transaction ends.  When the commit fails the table is as before, but the caller has already noted the new
      values in the row that it has in hand. */
  datatype Transaction = Committed | RolledBack | CommitFailed

  type Byte = b: int | 0 <= b < 256

  type Bytes = seq<Byte>

  function Min(a: int, b: int): int {
    if a <= b then a else b
  }

  function Max(a: int, b: int): int {
    if a <= b then b else a
  }

  /** The values of a uint64 are the remainders by this. */
  const TWO_TO_THE_64: int := 0x1_0000_0000_0000_0000
}
