/** The optional value used for results that may be absent, such as a
    dependency fetch that fails. */
module Wrappers {

  datatype Option<+T> = None | Some(value: T)
}
