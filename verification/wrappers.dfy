/** The one failure-compatible wrapper the model needs: Python's `Optional[T]`. */
module Wrappers {

  /** `None` is Python's `None`; `Some(v)` is a present value. */
  datatype Option<+T> = None | Some(value: T)
}
