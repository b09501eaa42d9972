/** The optional value used for JavaScript's `undefined` results (`oldRows?`, `find`). */
module Wrappers {

  datatype Option<+T> = None | Some(value: T)
}
