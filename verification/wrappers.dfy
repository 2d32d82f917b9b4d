/** Failure-compatible option type shared by the parser and the game loop. */
module Wrappers {

  /** `None` stands for JavaScript's NaN result of `parseInt`, or for "no value". */
  datatype Option<+T> = None | Some(value: T)
}
