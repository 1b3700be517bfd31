/** The Some/None datatype used for JavaScript operations that may throw or
    may find nothing. */
module Wrappers {

  datatype Option<+T> = None | Some(value: T)
}
