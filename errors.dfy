/*
 * The exceptions that escape from the model's operations, and the result
 * type that carries them instead of raising.
 */
module Errors {

  /**
   * Python built-in exceptions raised by the C extensions and the Python code,
   * plus the four exception classes of the project's own error module.
   */
  datatype Error =
    | ValueError
    | IndexError
    | TypeError
    | NameError
    | KeyError
    | ZeroDivisionError
    | StructError
    | ImageFormatError
    | ImageReadError
    | UnsupportedImageTypeError
    | ExtensionError

  datatype Result<T> = Ok(value: T) | Err(error: Error)

  datatype Option<T> = None | Some(value: T)
}
