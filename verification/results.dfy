/** Outcomes of the modelled Python functions: a value, or the exception the
    Python code would raise. */
module Results {

  /** The Python exceptions the modelled code can raise on its own. */
  datatype PyError =
    | ValueError  // `range()` called with a step of zero
    | IndexError  // a list subscript outside the list

  datatype Option<+T> = None | Some(value: T)

  datatype Result<+T> = Success(value: T) | Failure(error: PyError) {
    predicate IsFailure() {
      Failure?
    }

    function PropagateFailure<U>(): Result<U>
      requires Failure?
    {
      Failure(error)
    }

    function Extract(): T
      requires Success?
    {
      value
    }
  }
}
