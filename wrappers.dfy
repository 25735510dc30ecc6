/** The optional-value datatype used throughout the model. */
module Wrappers {

  /** A value that may be absent: a regular-expression match that failed, a
      missing header, a JavaScript property that is `undefined`. */
  datatype Option<+T> = None | Some(value: T)
}
