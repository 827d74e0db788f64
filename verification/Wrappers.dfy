/** The value types shared by the other modules. */
module Wrappers {

  /** A C pointer or optional field: None is NULL or "not present". */
  datatype Option<+T> = None | Some(value: T)

  /** An octet, `unsigned char` or `u8` in the sources. */
  type byte = x: int | 0 <= x < 256

  /** A 4-bit field. */
  type nibble = x: int | 0 <= x < 16
}
