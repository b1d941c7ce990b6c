/** Failure-carrying wrappers shared by the model: an optional value (a
    nullable Kotlin reference, an empty cursor) and a result that is either a
    value or the exception the JVM would have thrown. */
module Results {

  datatype Option<+T> = None | Some(value: T)

  datatype Result<+T, +E> = Success(value: T) | Failure(error: E)
}
