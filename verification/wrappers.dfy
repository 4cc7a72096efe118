/** The optional value used for Go's nil-able pointers (`*int64`, `*string`). */
module Wrappers {

  datatype Option<+T> = None | Some(value: T)
}
