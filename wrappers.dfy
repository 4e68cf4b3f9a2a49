/** Option, for the error paths of the model: a value, or none. */
module Wrappers {

  datatype Option<T> = None | Some(value: T)
}
