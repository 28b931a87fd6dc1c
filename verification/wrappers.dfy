/** The optional-value type used where the source may produce nothing. */
module Wrappers {

  datatype Option<+T> = None | Some(value: T)
}
