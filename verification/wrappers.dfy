/** The optional-value datatype used for dictionary lookups and docstrings. */
module Wrappers {

  /** `None` stands for Python's `None`, `Some(v)` for a present value. */
  datatype Option<+T> = None | Some(value: T)
}
