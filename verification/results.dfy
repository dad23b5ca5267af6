/** Failure-compatible results for the exceptions the notebook code can raise
    on the modelled paths, and the optional value used for `keys=None`. */
module Results {

  /** The Python exceptions reachable in the modelled code. */
  datatype Error =
    | ValueError(text: string)   // int() of a non-number, unpacking a split of the wrong length, pd.concat of nothing
    | KeyError(key: string)      // a dictionary lookup of a missing key
    | IndexError(text: string)   // indexing a split that has too few parts

  datatype Result<+T> = Ok(value: T) | Err(error: Error) {

    predicate IsFailure() {
      Err?
    }

    function PropagateFailure<U>(): Result<U>
      requires Err?
    {
      Err(error)
    }

    function Extract(): T
      requires Ok?
    {
      value
    }
  }

  datatype Option<+T> = None | Some(value: T)
}
