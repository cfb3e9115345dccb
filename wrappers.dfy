/** The result of an operation that the source may abort with an exception. */
module Wrappers {
  datatype Option<T> = None | Some(value: T)
}
