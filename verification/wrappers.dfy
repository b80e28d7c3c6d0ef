/** The optional-value type used for JavaScript's `null`/`undefined`. */
module Wrappers {

  /** `None` stands for `null` or `undefined`; `Some(v)` for a present value. */
  datatype Option<+T> = None | Some(value: T)
}
