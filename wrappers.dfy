/** The optional value used for "no such record" and for a file that does not exist. */
module Wrappers {

  datatype Option<+T> = None | Some(value: T)
}
