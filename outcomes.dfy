/** The ways a line of input can end without a printed answer, and the result
    types the rest of the model uses to carry them. */
module Outcomes {

  /** What the original program does not survive: each constructor names the
      library call that would throw. */
  datatype Fault =
    | EmptyLine        // `s.first()` on an empty line
    | UndefinedName    // `vars[op]!!` for a name that was never assigned
    | StackUnderflow   // `stack.removeLast()` on an empty evaluation stack
    | NotAnOperator    // `applyOperator[op]!!` for a token that is no operator
    | DivisionByZero   // `BigInteger.divide` with a zero divisor

  datatype Result<+T> = Ok(value: T) | Err(fault: Fault)

  datatype Option<+T> = None | Some(value: T)
}
