/** Small shared vocabulary: optional values, success-or-rejection results,
    calendar days and the identifiers of users and books. */
module Common {

  /** A value that may be missing; stands for a nullable Java reference. */
  datatype Option<+T> = None | Some(value: T)

  /** The outcome of an operation that either succeeds with a value or is
      rejected with a reason (the exceptions the service throws). */
  datatype Result<+T, +E> = Ok(value: T) | Err(error: E)

  /** A calendar date as a day number; `LocalDate.plusDays(n)` is `+ n`. */
  type Day = int

  /** Database identifiers of users and books. */
  type UserId = nat
  type BookId = nat
}
