/** The Some/None datatype used for a handler outcome that may produce no output. */
module Wrappers {

  datatype Option<+T> = None | Some(value: T)
}
