/** Failure-carrying results shared by the store model.
    Every SQLException of the data-access object is rethrown as one generic
    RuntimeException; a null project dereferenced while binding aborts the call too. */
module Outcomes {

  datatype Option<+T> = None | Some(value: T)

  /** The two ways an operation of the data-access object can abort. */
  datatype Failure =
    | DatabaseError  // an SQLException, rethrown with the localized "database error" message
    | NullDereference    // a null project dereferenced while binding a statement parameter

  /** Outcome of an operation that returns nothing (a Java `void` method). */
  datatype Outcome = Done | Failed(failure: Failure)

  /** Outcome of an operation that returns a value. */
  datatype Result<+T> = Ok(value: T) | Err(failure: Failure)
}
