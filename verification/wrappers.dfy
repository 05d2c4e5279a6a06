/** The Option type used for operations that may fail or find nothing. */
module Wrappers {

  datatype Option<+T> = None | Some(value: T)
}
