/** The optional value used for JavaScript's `null`/`undefined` voice selection. */
module Wrappers {

  datatype Option<+T> = None | Some(value: T)
}
