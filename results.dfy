/** Values the solvers return: the failures they raise and the triple the iterative methods report. */
module Results {

  datatype Option<T> = None | Some(value: T)

  /** The exceptions the four solvers raise, one constructor per distinct message. */
  datatype Error =
    | DimensionMismatch   // A is not square or b does not have one entry per row
    | SingularPivot       // with partial pivoting, the best pivot of a column is exactly zero
    | ZeroPivot           // without pivoting, the diagonal entry of the current column is zero
    | SingularLastPivot   // Gaussian elimination only: the last diagonal entry is zero
    | ZeroDiagonal        // Jacobi and Gauss-Seidel: a zero diagonal entry, no reordering is tried

  datatype Result<T> = Ok(value: T) | Err(error: Error)

  /**
   * What Jacobi and Gauss-Seidel return: the last iterate, the sweeps used and the convergence
   * flag. The count is maxiter itself when the methods give up, so it is negative for a negative maxiter.
   */
  datatype IterResult = IterResult(x: seq<real>, iterations: int, converged: bool)
}
