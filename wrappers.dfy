/** The optional value used for Go's nil-or-value fields (an `error`, a missing map entry). */
module Wrappers {
  datatype Option<+T> = None | Some(value: T)
}
