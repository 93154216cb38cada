/** The optional value used for nullable columns and failed lookups, and bytes. */
module Wrappers {

  datatype Option<+T> = None | Some(value: T)

  type Byte = b: int | 0 <= b < 256
}
