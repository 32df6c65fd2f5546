/** Failure-carrying datatypes shared by the whole model. */
module Wrappers {

  /** An optional value; a board cell holds `Some(id)` or `None` (Java's null). */
  datatype Option<+T> = None | Some(value: T)

  /** Outcome of an operation that may dereference an empty board cell.
      `NullPointer` stands for the NullPointerException Java throws there. */
  datatype Result<+T> = Ok(value: T) | NullPointer
}
