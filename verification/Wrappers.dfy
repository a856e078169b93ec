/** Failure-free optional values, used wherever the program has a NULL pointer or `None`. */
module Wrappers {
  datatype Option<+T> = None | Some(value: T)
}
