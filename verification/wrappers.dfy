/** Small value wrappers shared by the other modules. */
module Wrappers {

  /** An optional value: a Go `(value, err)` pair whose error is either nil or not. */
  datatype Option<+T> = None | Some(value: T)
}
