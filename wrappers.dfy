/** The optional value used wherever the Go code returns `nil` or a "not found" marker. */
module Wrappers {

  datatype Option<+T> = None | Some(value: T)
}
