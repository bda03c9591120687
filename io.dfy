/** The slice of `std::io` the filesystem double uses: the error kinds it
    reports and the `io::Result` shape every operation returns. */
module Io {

  /** The `io::ErrorKind` values the in-memory filesystem can produce. */
  datatype ErrorKind = NotFound | PermissionDenied | IsADirectory | NotADirectory | Other

  /** `io::Result<T>`: a value or the kind of the error that stopped the call. */
  datatype Result<+T> = Ok(value: T) | Err(error: ErrorKind)
}
