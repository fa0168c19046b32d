/** Failure-carrying results: a parse that can fail, a payload of the wrong shape. */
module Wrappers {

  datatype Option<+T> = None | Some(value: T)
}
