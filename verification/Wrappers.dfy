/** Types that several programs share. */
module Wrappers {

  /** A value that may be missing: a null pointer, a refused header, an untouched out-parameter. */
  datatype Option<+T> = None | Some(value: T)

  type Byte = b: int | 0 <= b < 256
}
