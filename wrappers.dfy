/** The optional value used wherever the original code tests a reference for null. */
module Wrappers {

  datatype Option<+T> = None | Some(value: T)
}
