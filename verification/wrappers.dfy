/** The optional value returned by a lookup that may find nothing. */
module Wrappers {

  /** `None` stands for JavaScript's `undefined` result of `Array.prototype.find`. */
  datatype Option<+T> = None | Some(value: T)
}
