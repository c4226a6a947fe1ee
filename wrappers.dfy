/** Option, Result and the failures the library raises as exceptions. */
module Wrappers {

  datatype Option<+T> = None | Some(value: T)

  /** The exceptions thrown by the matrix library, by kind. */
  datatype Failure =
    | AllZeroColumn       // IllegalStateException "Cannot reduce matrix with an all-zero column"
    | ReductionFailed     // IllegalStateException "Reduction failed."
    | IndexOutOfBounds    // ArrayIndexOutOfBoundsException / IndexOutOfBoundsException
    | NonSquare           // MatrixfException for a determinant of a non-square matrix
    | NoSuchElement       // `first()` on a matrix without rows
    | NegativeSize        // NegativeArraySizeException
    | IllegalArgument     // IllegalArgumentException "negative numbers not allowed!"
    | EmptyReduce         // UnsupportedOperationException from `reduce` on an empty range
    | DivisionByZero      // ArithmeticException from a Long division by zero

  datatype Result<+T> = Ok(value: T) | Err(error: Failure)
}
