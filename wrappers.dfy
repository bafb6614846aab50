/** The optional value used for "no row found", "no user matched" and "not in the session". */
module Wrappers {

  datatype Option<+T> = None | Some(value: T)
}
