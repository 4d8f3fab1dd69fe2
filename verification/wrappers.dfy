/** The optional value used for the C routines that return a pointer or NULL. */
module Wrappers {

  datatype Option<+T> = None | Some(value: T)
}
