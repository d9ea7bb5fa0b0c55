/** The `Result<T, E>` every capability of the codec returns. */
module Results {

  /** Success carrying a value, or failure carrying an error. In the codec the error type is the
      unit type `()`: failures carry no detail. */
  datatype Result<+T, +E> = Ok(value: T) | Err(error: E)
}
