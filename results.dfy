/** The failure-compatible wrappers the model uses for Rust's `Option` and `Result`,
    and a value paired with the state an operation leaves behind. */
module Results {

  datatype Option<+T> = None | Some(value: T)

  datatype Result<+T, +E> = Ok(value: T) | Err(error: E)

  /** The value an operation returns together with the state it leaves. */
  datatype Effect<+T, +S> = Effect(value: T, after: S)
}
