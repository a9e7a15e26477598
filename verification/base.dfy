/** Shared result types for the model: Java `null` becomes `None`, a thrown
    exception becomes `Err`. */
module Base {

  datatype Option<T> = None | Some(value: T) {
    /** `Optional.orElse`: the value, or `d` when absent. */
    function GetOr(d: T): T {
      if Some? then value else d
    }
  }

  /** The exception classes the modelled code throws or lets escape. */
  datatype Failure =
    | IllegalArgument   // IllegalArgumentException
    | NotFound          // RuntimeException for a missing row
    | NullPointer       // NullPointerException on a null field
    | NumberFormat      // NumberFormatException from Long.parseLong
    | StoreError        // a repository call that throws
    | FileError         // an IOException rethrown as RuntimeException
    | IncorrectResultSize // IncorrectResultSizeDataAccessException: a single-row query met several

  datatype Result<T> = Ok(value: T) | Err(failure: Failure)

  /** A point in time (LocalDateTime) as whole seconds on one local clock. */
  type Instant = int
}
