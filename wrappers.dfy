/** The optional value returned by a regular-expression `exec` and by the shim. */
module Wrappers {

  datatype Option<+T> = None | Some(value: T)
}
