/** The optional-value datatype used in place of a null pointer. */
module Wrappers {

  /** `None` stands for the source's `nullptr`. */
  datatype Option<+T> = None | Some(value: T)
}
