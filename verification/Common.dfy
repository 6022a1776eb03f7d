/** What every part of the model shares. */
module Common {

  datatype Option<T> = None | Some(value: T)

  /** One past the largest 64-bit unsigned value; a size_t has the same range. */
  const U64: nat := 0x1_0000_0000_0000_0000
}
