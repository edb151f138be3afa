/** Option stands in for JavaScript's "value or falsy": None is null, undefined or any other falsy value. */
module Wrappers {
  datatype Option<+T> = None | Some(value: T)
}
