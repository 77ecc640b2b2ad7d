/** The optional value the engine returns in place of Python's `None`. */
module Wrappers {
  datatype Option<T> = None | Some(value: T)
}
