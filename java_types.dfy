/** Java's primitive integer widths and the two exceptions the vector can throw,
    as values. A thrown exception becomes an `Err` result. */
module JavaTypes {

  const MIN_LONG: int := -0x8000_0000_0000_0000
  const MAX_LONG: int := 0x7FFF_FFFF_FFFF_FFFF
  const MAX_INT: int := 0x7FFF_FFFF

  /** A Java `long`: a signed 64-bit integer. */
  type Long = x: int | MIN_LONG <= x <= MAX_LONG

  /** The exceptions thrown by the accessors of the vector. */
  datatype Error =
    | IllegalState     // reading a null slot while null checking is enabled
    | IllegalArgument  // a holder whose isSet flag is negative

  datatype Result<T> = Ok(value: T) | Err(error: Error)

  /** How a `void` accessor ended: normally, or by throwing. */
  datatype Outcome = Completed | Threw(error: Error)

  /** A boxed Java value that may be `null`. */
  datatype Option<T> = None | Some(value: T)
}
