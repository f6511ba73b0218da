/** Outcome of an operation that the source either completes or aborts by throwing. */
module Results {

  /** `Err` carries the message of the exception the source would throw. */
  datatype Result<T> = Ok(value: T) | Err(error: string)
}
