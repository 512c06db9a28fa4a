/** Values that may be missing, and the range of a 32-bit unsigned integer. */
module Wrappers {

  datatype Option<T> = None | Some(value: T)

  const U32: nat := 0x1_0000_0000
}
