/** The optional value returned by a JavaScript function that may return
    `undefined`. */
module Wrappers {

  datatype Option<+T> = None | Some(value: T)
}
