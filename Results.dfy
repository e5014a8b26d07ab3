/** Outcome types used in place of the exceptions and `abort` calls of the web application. */
module Results {

  datatype Option<+T> = None | Some(value: T)

  /** `Err` stands for a raised `ValueError` or an aborted request. */
  datatype Result<+T, +E> = Ok(value: T) | Err(error: E)
}
