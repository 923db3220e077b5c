/** The optional-value datatype used by the parsers and the terminal model. */
module Wrappers {

  /** A value that may be absent: `None` marks input outside the vocabulary a parser accepts. */
  datatype Option<+T> = None | Some(value: T)
}
