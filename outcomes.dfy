/** Python exceptions that the driver raises or lets escape, as values. */
module Outcomes {

  /** The exception classes whose raising the model distinguishes. */
  datatype Exc =
    | IOError               // a transfer on the bus failed (OSError / IOError)
    | ValueError            // a byte outside 0..255 handed to bytes()
    | IndexError            // a reply shorter than the byte the decoder indexes
    | UnboundLocalError     // _read with retry_count <= 0 never assigns its reply
    | ThunderBorgException  // the driver's own exception

  /** Outcome of an operation that returns nothing in Python. */
  datatype Outcome = Done | Raised(exc: Exc)

  /** Outcome of an operation that returns a value in Python. */
  datatype Result<+T> = Ok(value: T) | Err(exc: Exc)
}
