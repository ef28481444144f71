/** Success/failure values standing for the program's `unwrap()` and `assert!`
    panics: every fatal error becomes a Failure the caller can inspect. */
module Results {

  datatype Option<+T> = None | Some(value: T)

  datatype Result<+T, +E> = Success(value: T) | Failure(error: E)

  datatype Outcome<+E> = Pass | Fail(error: E)
}
