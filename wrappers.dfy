/** Small shared datatypes. */
module Wrappers {

  /** A value that may be absent: Python's `None`, JavaScript's `undefined`. */
  datatype Option<+T> = None | Some(value: T)

  /** How a Python function call ends: it returns a value, or an exception
      leaves it that nothing in the function catches. */
  datatype Completion<+T> = Returned(value: T) | Raised
}
