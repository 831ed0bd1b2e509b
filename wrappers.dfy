/** Small failure-aware wrappers shared by the whole model. */
module Wrappers {

  /** A Java reference that may be null: `None` is null. */
  datatype Option<+T> = None | Some(value: T)

  /** The result of a computation that can abort with a NullPointerException. In the
      source such an exception is never caught: it ends the run. */
  datatype Outcome<+T> = Done(value: T) | NullPointer
}
