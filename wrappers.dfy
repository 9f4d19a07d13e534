/** The optional-value type standing in for Python's `Optional[...]` (`None` or a present value). */
module Wrappers {
  datatype Option<+T> = None | Some(value: T)
}
