/** The ways a solve call can fail, and the result type every solver returns.
    One constructor per distinct error the solvers throw. */
module Outcomes {

  datatype Failure =
    | NoRootInInterval      // "Root does not exist within the interval."
    | MaxIterationsReached  // "Max iterations reached without solution."
    | DivisionByZero        // "f(x1) - f(x0) is zero."
    | SameInitialGuesses    // "x0 and x1 cannot be same."
    | ZeroDerivative        // "Derivative is 0."
    | InvalidMatrix         // "Invalid matrix inputs."
    | SingularMatrix        // "Matrix is singular. No unique solution exists."
    | InvalidDimensions     // "Invalid input. Required 3x3 coefficient matrix and 3x1 constant matrix."
    | ZeroDiagonal          // "Diagonal elements cannot be 0."
    | NonFiniteIterate      // a division by zero the code does not guard: IEEE arithmetic would go on with Infinity or NaN

  /** A solve call either returns a value or fails with one error. */
  datatype Result<T> = Ok(value: T) | Err(error: Failure)
}
