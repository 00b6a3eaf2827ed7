/** The failures the game's operations raise, as values. */
module Errors {

  /** The only error the game raises: a coordinate outside [0, rows) x [0, cols). */
  datatype Error = OutOfBounds(row: int, col: int)

  /** The value of a read that may throw. */
  datatype Result<T> = Ok(value: T) | Err(error: Error)

  /** The completion of a command that returns nothing but may throw. */
  datatype Outcome = Pass | Fail(error: Error)
}
