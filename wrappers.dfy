/** The optional value used throughout the model: JavaScript's `null`/`undefined`
    for a missing field, and the "no mappings" result of the parser. */
module Wrappers {

  datatype Option<+T> = None | Some(value: T)
}
