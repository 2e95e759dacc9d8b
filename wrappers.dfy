/** The optional value used throughout the model for JavaScript's
    `null`/`undefined` and for operations that may fail. */
module Wrappers {

  datatype Option<+T> = None | Some(value: T)

}
