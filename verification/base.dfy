/** Failure-carrying wrappers shared by every module of the model. */
module Base {

  /** Python's `None` or a present value. */
  datatype Option<T> = None | Some(value: T)

  /** The Python exceptions the modelled code can raise and does not catch. */
  datatype Error =
    | IndexError      // numpy/list subscript outside [-n, n)
    | KeyError        // dictionary lookup of an absent key
    | ZeroDivision    // division by a zero coordinate count
    | ValueError      // `max` of an empty sequence

  datatype Result<T> = Ok(value: T) | Fail(error: Error)
}
