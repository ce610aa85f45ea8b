/** The optional value shared by the record layer and request signing. */
module Wrappers {
  datatype Option<T> = None | Some(value: T)
}
