/** The optional value used throughout, standing for the source's `Option<T>`. */
module Wrappers {

  datatype Option<+T> = None | Some(value: T)
}
