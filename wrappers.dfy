/** The optional value used where the Go code returns `nil` for "nothing there". */
module Wrappers {
  datatype Option<+T> = None | Some(value: T)
}
