/** The Python exceptions the modelled code can raise, and a result type that
    carries either a value or the exception that replaced it. */
module Exceptions {

  datatype Error =
    | IndexError                       // a sequence index past the end
    | KeyError(key: string)            // a dict subscript with a missing key
    | NotImplementedError(message: string)
    | ZeroDivisionError                // a division by 0
    | RuntimeError(message: string)    // what GDAL raises when a translate fails

  datatype Result<+T> = Ok(value: T) | Err(error: Error)

  datatype Option<+T> = None | Some(value: T)
}
