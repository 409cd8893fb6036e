/** The optional result returned by `integer_cbrt_checked`. */
module Wrappers {

  datatype Option<+T> = None | Some(value: T)

}
