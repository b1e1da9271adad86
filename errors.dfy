/**
 * Outcomes of the lifecycle operations. Every exception the services and
 * repositories throw on purpose becomes an `Error`; a null reference the
 * code tests for becomes `None`.
 */
module Errors {

  datatype Option<+T> = None | Some(value: T)

  /** The exception kinds the core throws, named after the .NET exception types. */
  datatype Error =
    | KeyNotFound          // KeyNotFoundException
    | InvalidOperation     // InvalidOperationException
    | UnauthorizedAccess   // UnauthorizedAccessException
    | ArgumentNull         // ArgumentNullException
    | Argument             // ArgumentException
    | ArgumentOutOfRange   // ArgumentOutOfRangeException (DateTime arithmetic past its range)

  datatype Result<+T> = Ok(value: T) | Err(error: Error)
}
