/** Error results for the exceptions the isotope routines raise. */
module Outcomes {

  /** The Python exceptions that the modelled routines can raise. */
  datatype Error =
    | TypeError          // an object that is neither a Species nor a Reaction
    | IndexError         // `molecule[0]` of a species without molecules, `rxnList[0]` of an empty list
    | ZeroDivisionError  // a float division by zero

  datatype Result<T> = Ok(value: T) | Err(error: Error)

  datatype Option<T> = None | Some(value: T)
}
