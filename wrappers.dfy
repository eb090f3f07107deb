/** Failure-carrying values used across the model. */
module Wrappers {

  /** A value that may be absent: a missing spreadsheet cell, a dictionary miss. */
  datatype Option<+T> = None | Some(value: T)

  /** The outcome of a call that can fail with a reason (opening a workbook,
      asking the report generator for a document). */
  datatype Result<+T, +E> = Success(value: T) | Failure(error: E)
}
