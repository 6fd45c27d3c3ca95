/** The optional value used for Swift's `T?` results. */
module Wrappers {

  datatype Option<+T> = None | Some(value: T)
}
