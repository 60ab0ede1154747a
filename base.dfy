/** Go values shared by every module: bytes, opaque timestamps, optional
    values, and the error values the filesystem layers produce and inspect.

    Go reports failures as `error` interface values. The ones this system
    produces or inspects are either an `*os.PathError{Op, Path, Err}` or a bare
    sentinel (`os.ErrNotExist`, `io.EOF`, or an error returned by a visitor or
    by the host filesystem). The sentinel is abstracted to a `Kind`.
 */
module Base {

  /** Go's byte. */
  type byte = b: int | 0 <= b < 256

  /** time.Time, treated as opaque: only stored and passed through. */
  datatype Time = Time(unixNano: int)

  datatype Option<+T> = None | Some(value: T)

  datatype Result<+T> = Success(value: T) | Failure(error: Error)

  /** The sentinel an error carries (or wraps, for a PathError). */
  datatype Kind =
    | NotExist          // os.ErrNotExist
    | IsDirectory       // errIsDirectory in bindata/binfs.go
    | IsFile            // errIsFile in bindata/binfs.go
    | EOF               // io.EOF
    | Other(code: int)  // any other error (host filesystem, visitor abort, writer failure)

  datatype Error =
    | PathError(op: string, path: string, kind: Kind)  // *os.PathError wrapping `kind`
    | Plain(kind: Kind)                                // the sentinel itself

  /** os.IsNotExist: unwraps one *os.PathError and compares the sentinel. */
  predicate IsNotExist(e: Error)
  {
    e.kind == NotExist
  }

  /** Go's `err == nil`-aware form of IsNotExist on an optional error. */
  predicate IsNotExistErr(e: Option<Error>)
  {
    e.Some? && IsNotExist(e.value)
  }
}
