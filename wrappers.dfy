/** Small result types shared by the planner and controller models. */
module Wrappers {

  /** A value that may be absent (Python's `None`). */
  datatype Option<+T> = None | Some(value: T)

  /** The outcome of an operation that can raise instead of returning. */
  datatype Outcome = Pass | Fail(message: string)
}
