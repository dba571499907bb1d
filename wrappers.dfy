/** Optional values and the Python exceptions that the pipeline can raise. */
module Wrappers {

  datatype Option<+T> = None | Some(value: T)

  /** The exceptions that escape from the modelled Python functions. */
  datatype Error =
    | KeyError(key: string)      // a missing column name
    | TypeError                  // e.g. math.isnan on a str, re.match on None
    | ValueError                 // e.g. DataFrame.insert of an existing column
    | AttributeError             // .strip() called on a missing (NaN) cell
    | IndexError                 // DataFrame.insert past the last column
    | LabelError(row: int)       // a KeyError on a missing row label
    | ReError                    // re.error: a pattern that does not compile
    | Unsupported                // a run-time pattern outside the modelled regex subset

  datatype Result<+T> = Ok(value: T) | Err(error: Error)
}
