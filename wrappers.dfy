/** Java's null and exceptions as values. */
module Wrappers {

  /** `None` stands for a Java `null`. */
  datatype Option<+T> = None | Some(value: T)

  /** A value, or the exception the Java code throws instead of returning one. */
  datatype Result<+T, +E> = Success(value: T) | Failure(error: E)

  /** Completion of a `void` method: normal return, or the exception it throws. */
  datatype Outcome<+E> = Pass | Fail(error: E)
}

/** The exception classes of the database layer, folded into one datatype. */
module DbErrors {

  datatype DbError =
    /** DatabaseException "Error while accessing the database file." */
    | DatabaseAccess
    /** DatabaseException "Incompatible database - database supplied cannot be used by this application." */
    | IncompatibleDatabase
    /** RecordNotFoundException */
    | RecordNotFound
    /** SecurityException "Invalid cookie value" */
    | InvalidCookie
    /** IllegalArgumentException "invalid data detected!" from Subcontractor.setData */
    | InvalidData
    /** NullPointerException where the Java code dereferences a null reference */
    | NullDereference
    /** RecordAlreadyBookedException, raised by the booking use case */
    | RecordAlreadyBooked

  /** Java's `long`, the type of lock cookies. */
  type Int64 = x: int | -0x8000_0000_0000_0000 <= x < 0x8000_0000_0000_0000
}
