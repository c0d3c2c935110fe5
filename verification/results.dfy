/** Failure-aware wrappers shared by every module of the model.
    `Option` stands for Python's `None`-or-value returns, `Result` for a
    call that either returns a value or raises. */
module Results {

  datatype Option<+T> = None | Some(value: T)

  datatype Result<+T, +E> = Ok(value: T) | Err(error: E)
}
