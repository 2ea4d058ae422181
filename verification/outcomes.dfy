/** Failure-compatible result type shared by the buffer list and the engine.
    A failed JavaScript `assert` in the source becomes `Fail(error)`. */
module Outcomes {

  datatype Result<+T, +E> = Ok(value: T) | Fail(error: E) {

    predicate IsFailure() {
      Fail?
    }

    function PropagateFailure<U>(): Result<U, E>
      requires Fail?
    {
      Fail(error)
    }

    function Extract(): T
      requires Ok?
    {
      value
    }
  }

  /** A value that may be absent. */
  datatype Option<+T> = None | Some(value: T)
}

/** Bytes as carried by a Node `Buffer`. */
module Bytes {
  newtype byte = x: int | 0 <= x < 256
}
