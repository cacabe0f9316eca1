/** The optional value used wherever the Go code returns "not found" (an index of -1,
    an error value, a nil match). */
module Wrappers {

  datatype Option<+T> = None | Some(value: T)
}
