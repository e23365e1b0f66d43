/** Failure-compatible result of an operation that the source reports by returning None. */
module Wrappers {

  datatype Option<+T> = None | Some(value: T)
}
