/** The optional value used for SDK references that may be null. */
module Wrappers {

  datatype Option<+T> = None | Some(value: T)
}
