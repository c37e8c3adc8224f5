/** The optional value used for a regular-expression match that may fail. */
module Wrappers {

  datatype Option<+T> = None | Some(value: T)
}
