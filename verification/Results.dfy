/** The outcomes of operations that throw in the original. */
module Results {
  datatype Error = InvalidBase | ExpectedInteger | InvalidDigit | DivisionByZero
  datatype Result<+T> = Ok(value: T) | Err(error: Error)
}
