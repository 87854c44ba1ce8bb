/** The outcome of one instruction: either its new state or the error code it
    aborts with. An aborted instruction leaves every account as it was, so the
    old state is simply the caller's. */
module Results {

  datatype Result<+T, +E> = Ok(value: T) | Err(error: E) {

    /** True if the instruction aborted. */
    predicate IsFailure() {
      Err?
    }

    /** Re-types an abort so that `:-` can propagate it. */
    function PropagateFailure<U>(): Result<U, E>
      requires Err?
    {
      Err(error)
    }

    /** The new state of a successful instruction. */
    function Extract(): T
      requires Ok?
    {
      value
    }
  }

  datatype Option<+T> = None | Some(value: T)
}
