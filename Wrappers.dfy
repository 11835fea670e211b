/** The optional value used wherever the source has a nullable column, an
    `Optional` or a method that may return `null`. */
module Wrappers {

  datatype Option<+T> = None | Some(value: T)
}
