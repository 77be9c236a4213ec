/** Optional values and the exceptions the Python code can raise, as values.

    The Python code raises on most failures; the model turns
    every raise into an explicit `Raised` outcome so that callers and lemmas
    can talk about exactly when it happens. */
module Outcomes {

  /** Python's `None` next to a real value. */
  datatype Option<+T> = None | Some(value: T)

  /** The kinds of exception the modelled code can raise. */
  datatype Failure =
    | TypeError    // `None` used as a string: concatenated or sliced
    | IndexError   // a sensor registry lookup past its end
    | BadHex       // `hex_to_int` on text that is not a hexadecimal number
    | BadDtc       // `decrypt_dtc_code` ran out of characters

  /** Either a normal return value or the exception that ended the call. */
  datatype Outcome<+T> = Ok(value: T) | Raised(error: Failure)
}
