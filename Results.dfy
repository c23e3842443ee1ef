/// Value wrappers shared by every module: Go's `(value, error)` returns are
/// modelled as `Result`, optional values as `Option`.
module Results {

  datatype Option<T> = None | Some(value: T)

  /// A Go `(T, error)` pair: `Ok` when the error is nil, `Err` otherwise.
  /// Error texts are only ever logged by the tools, so `msg` is informative.
  datatype Result<T> = Ok(value: T) | Err(msg: string)
}
