/** Failure-carrying values used across the model: an optional value and
    a value-or-error, standing in for Python's None and raised exceptions. */
module Results {

  datatype Option<+T> = None | Some(value: T)

  datatype Result<+T, +E> = Ok(value: T) | Err(error: E)
}
