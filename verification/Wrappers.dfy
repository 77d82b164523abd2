/** The Option type shared by the other modules: a C pointer or a table slot that may be NULL. */
module Wrappers {
  datatype Option<+T> = None | Some(value: T)
}
