/** The optional-value type used for inputs that may be rejected. */
module Wrappers {

  datatype Option<+T> = None | Some(value: T)

}
