/** The failures the array library raises on bad shapes. */
module Errors {

  datatype Error =
    | ShapeMismatch  // operand shapes do not line up (a matrix product, or stacking)
    | EmptyForest    // stacking an empty list of outputs

  datatype Result<T> = Ok(value: T) | Err(error: Error)
}
