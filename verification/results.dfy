/** Outcomes of operations that can throw in the modelled system.
    Each Java exception the core raises becomes one `Error` value. */
module Results {

  /** The exception kinds the core raises. */
  datatype Error =
    | IllegalArgument    // IllegalArgumentException: adding an element already present
    | NoSuchElement      // NoSuchElementException: empty queue or absent element
    | IndexOutOfBounds   // IndexOutOfBoundsException / StringIndexOutOfBoundsException
    | NullPointer        // NullPointerException: unboxing a missing map value

  /** Either the value an operation returns or the exception it throws. */
  datatype Result<+T> = Ok(value: T) | Err(error: Error)

  /** A Java reference that may be `null`. */
  datatype Option<+T> = None | Some(value: T)
}
