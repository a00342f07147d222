/** The optional value used for Ruby's `nil`-or-value parameters and for parsers. */
module Wrappers {

  datatype Option<+T> = None | Some(value: T)
}
