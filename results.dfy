/** Absent values and thrown errors of the JavaScript source, made explicit. */
module Results {

  /** `undefined` (None) or a present value (Some). */
  datatype Option<+T> = None | Some(value: T)

  /** A computation that either yields a value or throws a JavaScript TypeError
      (reading a property of `undefined`). Nothing in the source catches it. */
  datatype Result<+T> = Ok(value: T) | TypeError
}
