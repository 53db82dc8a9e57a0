/** The optional-value type shared by the other modules, standing for Python's `Optional`. */
module Wrappers {

  /** Python's `Optional[T]`: `None` or a present value. */
  datatype Option<+T> = None | Some(value: T)
}
