/** Result and option types, and the exception kinds that the engine throws. */
module Wrappers {

  datatype Option<+T> = None | Some(value: T)

  /** One constructor per exception class; the message texts are not modelled. */
  datatype Error =
    | InvalidArgument
    | OutOfRange
    | PageFull
    | PageCorruption
    | BufferPoolExhausted
    | IndexCorruption
    | CatalogCorruption
    | TupleCorruption
    | TableCorruption
    | SqlBindError

  datatype Result<+T> = Ok(value: T) | Err(error: Error)

}
