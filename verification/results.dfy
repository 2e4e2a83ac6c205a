/** Failure-carrying values shared by every module: an optional value and a
    success-or-error result, standing in for JavaScript's `undefined` and for
    thrown exceptions respectively. */
module Results {

  datatype Option<+T> = None | Some(value: T)

  datatype Result<+T, +E> = Ok(value: T) | Err(error: E)
}
