/** The optional value used for the nullable income column. */
module Wrappers {

  datatype Option<+T> = None | Some(value: T)
}
