/** Failure-carrying values shared by every module of the model: `Option` for
    "maybe absent" and `Result` for an operation that either returns a value
    or raises one of the source's exceptions (carried as an error value). */
module Results {

  datatype Option<+T> = None | Some(value: T)

  datatype Result<+T, +E> = Ok(value: T) | Err(error: E)
}
