/** The optional value used for JavaScript's `undefined` configuration fields. */
module Wrappers {

  datatype Option<+T> = None | Some(value: T)
}
