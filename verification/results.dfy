/** Failure values for the conditions under which the spreadsheet throws
    IllegalArgumentException, and a Result type that carries them. */
module Results {

  /** Why an operation was refused. */
  datatype Error =
    | NegativeCoordinate   // a cell access named a negative row or column
    | InvalidRange         // a macro constructor rejected its coordinates
    | InvalidRow           // a row label held a character that is not a letter

  /** Either the value an operation returns, or the reason it was refused. */
  datatype Result<+T> = Ok(value: T) | Err(error: Error)
}
