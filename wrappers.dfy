/** The optional value used for the lookup tables and the chosen language. */
module Wrappers {
  datatype Option<T> = None | Some(value: T)
}
