/** Failure-carrying values used across the model: `Option` stands for a
    JavaScript value that may be `null` or `undefined`, `Result` for an
    operation that either returns or throws. */
module Results {

  datatype Option<+T> = None | Some(value: T)

  datatype Result<+R, +E> = Success(value: R) | Failure(error: E)
}
