/** The optional value used for Swift's `T?` results (`nil` becomes `None`). */
module Wrappers {

  datatype Option<+T> = None | Some(value: T)
}
