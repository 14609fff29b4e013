/** An optional value, used for JavaScript's `undefined` and for "no match". */
module Wrappers {

  datatype Option<+T> = None | Some(value: T)
}
