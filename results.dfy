/** Option and Result values used for the Python code's `None` returns and for the
    exceptions and `exit()` calls that abort a run. */
module Results {

  datatype Option<+T> = None | Some(value: T)

  datatype Result<+T, +E> = Ok(value: T) | Err(error: E)
}
