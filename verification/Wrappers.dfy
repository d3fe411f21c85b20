/** An optional value, for Go's nil results and error returns. */
module Wrappers {
  datatype Option<+T> = None | Some(value: T)
}
