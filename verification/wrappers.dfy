/** The optional value the other modules use in place of a sentinel. */
module Wrappers {

  /** `None` stands for a value the source represents by a sentinel (here `Infinity`). */
  datatype Option<+T> = None | Some(value: T)
}
