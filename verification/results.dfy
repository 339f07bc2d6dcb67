/** Failure-compatible results for the exceptions the pandas/numpy code raises.
    Each constructor of `Error` names the Python exception class the source
    would let escape; `DuplicateLabel` marks a state the model refuses to
    build (two columns under one label), see README. */
module Results {

  datatype Error =
    | KeyError(name: string)
    | IndexError
    | ValueError
    | TypeError
    | AttributeError
    | MergeError
    | DuplicateLabel(name: string)

  datatype Result<+T> = Ok(value: T) | Err(error: Error) {

    predicate IsFailure() {
      Err?
    }

    function PropagateFailure<U>(): Result<U>
      requires Err?
    {
      Err(error)
    }

    function Extract(): T
      requires Ok?
    {
      value
    }
  }

  datatype Option<+T> = None | Some(value: T)
}
