/** The optional value shared by the inverse functions of the model. */
module Wrappers {
  datatype Option<T> = None | Some(value: T)
}
