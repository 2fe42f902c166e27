/** Types shared by the models. */
module Common {
  datatype Option<T> = None | Some(value: T)

  /** One `struct iovec`: an address, or a place in a buffer, and a length. */
  datatype Span = Span(base: nat, len: nat)
}
