/** Values the Go code works with that are not specific to one package: bytes,
    optional values (a nil or non-nil error), and the result of a call that
    either returns or panics. */
module Go {

  /** A Go `byte`. */
  newtype byte = x: int | 0 <= x < 256

  /** A value that may be absent; `None` stands for a nil error. */
  datatype Option<T> = None | Some(value: T)

  /** The result of a Go call that either returns normally or panics. A panic
      carries a reason of type P. */
  datatype Outcome<T, P> = Returned(value: T) | Panicked(reason: P)
}
