/** The optional value every module of the model shares. */
module Wrappers {
  datatype Option<T> = None | Some(value: T)
}
