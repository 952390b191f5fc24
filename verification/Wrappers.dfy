/** A value that may be absent: Go's nil pointers, missing map keys and error returns. */
module Wrappers {

  datatype Option<+T> = None | Some(value: T)
}
