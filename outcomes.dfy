/** The two ways a step of the script can end: a value, or a Python exception
    that nothing in the script catches. */
module Outcomes {

  /** The exceptions the modelled code can raise. */
  datatype Failure =
    | ValueError(text: string)   // fromisoformat / strptime reject their argument
    | OverflowError              // date arithmetic leaves the range 0001-01-01 .. 9999-12-31

  datatype Result<T> = Ok(value: T) | Err(error: Failure)

  datatype Option<T> = None | Some(value: T)
}
