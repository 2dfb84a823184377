/** Small outcome types shared by the library-catalog model. */
module Results {

  /** A value that may be missing: Python's `None` or the object a lookup returns. */
  datatype Option<+T> = None | Some(value: T)

  /** The outcome of a call that can raise: the value, or why it failed. */
  datatype Result<+T, +E> = Success(value: T) | Failure(error: E)

  /** A state transition that also reports a boolean, the way every mutating
      operation of the catalog returns `True`/`False`: `ok` is the returned
      flag and `next` is the state after the call. */
  datatype Attempt<+S> = Attempt(ok: bool, next: S)
}
