/** The Option datatype used for "no result" answers throughout the model. */
module Wrappers {

  datatype Option<+T> = None | Some(value: T)
}
