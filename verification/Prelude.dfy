/** The datatype every component model shares. */
module Prelude {
  datatype Option<+T> = None | Some(value: T)
}
