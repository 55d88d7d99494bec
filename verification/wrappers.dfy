/** The optional-value wrapper used for loader options and regex matches. */
module Wrappers {

  /** A value that may be absent: `None` stands for JavaScript's `undefined`/`null`
      or for a regular expression that did not match. */
  datatype Option<+T> = None | Some(value: T)
}
