/** Optional values, used wherever the source returns `None` or raises an
    exception that its caller turns into "no value", and the byte type of
    Python's `bytes`. */
module Wrappers {

  datatype Option<+T> = None | Some(value: T)

  /** One element of a Python `bytes` value. */
  type Byte = b: int | 0 <= b < 256
}
