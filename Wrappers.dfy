/** The Option datatype used wherever the source can fail or the input can be absent. */
module Wrappers {

  datatype Option<+T> = None | Some(value: T)
}
