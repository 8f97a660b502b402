/** The optional outgoing frame of one receive step. */
module Wrappers {

  datatype Option<+T> = None | Some(value: T)
}
