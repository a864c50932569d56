/** A value that may be absent: Go's nil reader or nil splitter is `None`. */
module Wrappers {

  datatype Option<T> = None | Some(value: T)
}
