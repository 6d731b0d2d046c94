/** Error categories and the status of an operation that returns no value. */
module Errors {
  datatype ErrorCategory =
    | InvalidArgument | InvalidIdentifier | InvalidParameter | InvalidValue
    | DimensionMismatch | NotFound | AllocationFailure
    | SnapshotNotFound | UnsupportedVersion | Corruption
    | InvalidName | InvalidDimensionality | InvalidMetric | NameConflict | DeletionFailed

  datatype Status = Ok | Error(category: ErrorCategory)

  datatype Result<+T> = Success(value: T) | Failure(category: ErrorCategory)

  datatype Option<+T> = None | Some(value: T)
}
