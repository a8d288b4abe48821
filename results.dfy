/** Failure-carrying values: a Java method that may return nothing or throw
    is modelled as a function returning one of these. */
module Results {

  datatype Option<+T> = None | Some(value: T)

  datatype Result<+T, +E> = Ok(value: T) | Err(error: E)
}
