/** The optional-value datatype used across the model. */
module Wrappers {

  /** A value that may be absent: `None` stands for JavaScript's `undefined`/`null`. */
  datatype Option<+T> = None | Some(value: T)
}
