/** Result and option types shared by every module of the model. */
module Wrappers {

  datatype Option<+T> = None | Some(value: T)

  /** The exceptions the Python code can raise, plus the two outcomes the
      model adds where the Python loops forever or keeps drawing random numbers. */
  datatype Error =
    | KeyError      // a dictionary lookup of a missing key
    | IndexError    // a list index out of range (route[0] of an empty route, ...)
    | ValueError    // int() of a malformed token, max() of an empty set, random.sample of too few items
    | TypeError     // a list used as a dictionary key, None in arithmetic
    | ZeroDivisionError // a division by a temperature of 0
    | Diverges      // the Python loop would never terminate
    | Exhausted     // the finite supply of random draws given to the model ran out

  datatype Result<+T> = Ok(value: T) | Err(error: Error)
}
