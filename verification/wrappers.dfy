/** The optional value used for the snake's pending direction and its vacated tail cell. */
module Wrappers {

  /** `None` stands for Python's `None`; `Some(v)` for a present value. */
  datatype Option<+T> = None | Some(value: T)
}
