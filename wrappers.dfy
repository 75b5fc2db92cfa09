/** Shared result types: the .NET exceptions the modelled code can raise, and bytes. */
module Wrappers {

  datatype Option<T> = None | Some(value: T)

  /** The exception kinds the modelled library lets escape to its caller. */
  datatype Exception =
    | ArgumentError          // List.Add / PropertyInfo.SetValue with a value of the wrong type
    | ArgumentOutOfRange     // Substring with a negative start or length
    | NullReference          // a member called on null
    | DuplicateKey           // Dictionary.Add of a key that is already present
    | NullValue              // Nullable<T>.Value on a null
    | InvalidCast            // Convert.ChangeType that cannot convert
    | FormatError            // int.Parse / byte.Parse / string.Format on bad text
    | OverflowError          // a checked conversion out of range
    | IndexOutOfRange        // an array or list index past the end
    | MissingConstructor     // Activator.CreateInstance on a type with no parameterless constructor
    | XPathError             // SelectNodes / SelectSingleNode with a name that is not a valid XPath step
    | XmlError               // XmlDocument.LoadXml on text that is not well-formed
    | StackOverflow          // recursion that never ends
    | DivideByZero           // `%` by zero
    | Failure(message: string) // `throw new Exception(message)`

  datatype Result<T> = Ok(value: T) | Err(error: Exception)

  /** An unsigned 8-bit value (System.Byte). */
  newtype byte = b: int | 0 <= b < 256
}
