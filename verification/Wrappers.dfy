/** The optional value used wherever the source returns an `Option`, a nullable column or an error. */
module Wrappers {

  datatype Option<+T> = None | Some(value: T)
}
