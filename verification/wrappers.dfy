/** The optional value used wherever the Ruby code returns `nil`. */
module Wrappers {

  datatype Option<+T> = None | Some(value: T)
}
