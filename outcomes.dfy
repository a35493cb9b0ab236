/** Error signalling of the image library: the exceptions the generated kernels and the
    checked accessors raise, as values. */
module Outcomes {

  /** The exceptions a kernel or accessor can raise. */
  datatype ImageError =
    | OutOfBounds        // ImageAccessException from a checked accessor
    | ShapeMismatch      // IllegalArgumentException from the same-shape sanity check
    | IllegalArgument    // IllegalArgumentException from Random.nextInt with a bound <= 0
    | Arithmetic         // ArithmeticException from an integer division by zero

  /** The result of an operation that computes a value or raises. */
  datatype Result<+T> = Ok(value: T) | Err(error: ImageError)

  /** The result of an operation that only changes state or raises. */
  datatype Outcome = Pass | Fail(error: ImageError)
}
