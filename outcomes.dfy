/** The exceptions the heaps throw, and the results of operations that may throw. */
module Outcomes {

  /** IllegalArgumentException, IndexOutOfBoundsException (including the
      ArrayIndexOutOfBoundsException of a bad array index) and
      NoSuchElementException. */
  datatype HeapError = IllegalArgument | IndexOutOfBounds | NoSuchElement

  /** A value, or the exception that was thrown instead. */
  datatype Result<T> = Ok(value: T) | Err(error: HeapError)

  /** A void call: it returned normally, or it threw. */
  datatype Outcome = Done | Failed(error: HeapError)
}
