/** Failure-compatible wrappers used across the model: `Option` for a value that
    may be absent (a null pointer in the source) and `Result` for an operation
    whose C++ counterpart can end in undefined behaviour. */
module Results {

  datatype Option<+T> = None | Some(value: T)

  /** Why a decoding step has no defined outcome in the source. */
  datatype Fault =
    | DivisionByZero      // an integer division by a record size of 0
    | IndeterminateRead   // bytes read from memory the stream never filled
    | BufferOverrun       // a field read past the end of the hit buffer
    | InvalidDelete       // `delete[]` of a pointer that `new[]` did not return

  datatype Result<+T> = Ok(value: T) | Failed(fault: Fault) {

    predicate IsFailure() {
      Failed?
    }

    function PropagateFailure<U>(): Result<U>
      requires Failed?
    {
      Failed(fault)
    }

    function Extract(): T
      requires Ok?
    {
      value
    }
  }
}
