/** What several components share. */
module Common {

  datatype Option<T> = None | Some(value: T)

  // Number of values of a size_t.
  const SIZE_T: nat := 0x1_0000_0000_0000_0000
  // Number of values of an int that are not negative.
  const INT_LIMIT: nat := 0x8000_0000
}
