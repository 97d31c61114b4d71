/** The optional-value type used for checked arithmetic and for operations that panic. */
module Wrappers {

  datatype Option<+T> = None | Some(value: T)

}
