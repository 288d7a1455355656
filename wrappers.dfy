/** The optional value that stands for JavaScript's `null` result of a failed match. */
module Wrappers {

  datatype Option<+T> = None | Some(value: T)

}
