/**
 * Outcomes of operations that the Java code reports by throwing.
 * Every exception path of the wrapper becomes an `Err`/`Fail` value here.
 */
module Outcomes {
  /** The failures the wrapper raises itself or lets through from the SMB library. */
  datatype Error =
    | InvalidPath(path: string)           // RuntimeException from a validating item constructor
    | NotFound(path: string)              // the server reports that nothing exists at the path
    | WrongKind(path: string)             // a file operation on a directory or the other way round
    | AlreadyExists(path: string)         // the server refuses to create what already exists
    | StateConflict(message: string)      // IllegalStateException raised by ensureExists
    | RenameConflict(path: string)        // the server refuses a rename onto an existing target
    | AccessDenied(path: string)          // the server refuses to delete or rename the share root
    | ConnectionFailure(message: string)  // connecting, authenticating or binding the share failed
    | IOFailure(message: string)          // IOException raised by the wrapper itself
    | OutOfBounds                         // IndexOutOfBoundsException from a stream write

  /** A value, or the failure that replaced it. */
  datatype Result<+T> = Ok(value: T) | Err(error: Error)

  /** The outcome of an operation that returns nothing (a Java `void` method). */
  datatype Status = Pass | Fail(error: Error)
}
