/** The optional value shared by the page model and the backend model. */
module Wrappers {

  datatype Option<T> = None | Some(value: T)
}
