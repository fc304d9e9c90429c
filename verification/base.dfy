/** Small shared vocabulary: absent values, the one exception kind the
    puzzle classes throw, and absolute value on integers. */
module Base {

  /** A possibly absent value; stands for a Java reference that may be null. */
  datatype Option<+T> = None | Some(value: T)

  /** The only exception the puzzle classes raise is InputMismatchException
      (bad direction in a move, bad position or token in setField). */
  datatype Error = InputMismatch

  /** Either a value or the exception that replaced it. */
  datatype Result<+T> = Ok(value: T) | Err(error: Error)

  function Abs(n: int): nat
  {
    if n < 0 then -n else n
  }
}
