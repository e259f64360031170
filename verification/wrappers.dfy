/** The optional-value type used across the model for Python's `None`-or-value returns. */
module Wrappers {

  /** `None` stands for Python's `None`; `Some(v)` for a present value `v`. */
  datatype Option<+T> = None | Some(value: T)
}
