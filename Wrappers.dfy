/** The optional value used for PHP's `null`-or-value slots. */
module Wrappers {

  datatype Option<+T> = None | Some(value: T)
}
