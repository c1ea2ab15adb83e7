/** The usual optional-value datatype: `None` stands for Python's `None`
    or for an operation that raised and was caught. */
module Wrappers {
  datatype Option<+T> = None | Some(value: T)
}
