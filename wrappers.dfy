/** The optional value used for absent map entries and failed operations. */
module Wrappers {

  datatype Option<+T> = None | Some(value: T)
}
