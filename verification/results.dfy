/** Failure-carrying wrappers used by the job manager model in place of Java's
    `Optional` and thrown exceptions. */
module Results {

  /** An optional value, as Guava's `Optional` in the job manager's query results. */
  datatype Option<+T> = None | Some(value: T)

  /** Either a value or the error that a Java method would have thrown instead. */
  datatype Result<+T, +E> = Ok(value: T) | Err(error: E)
}
