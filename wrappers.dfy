/** Option and Result types shared by the modules of the model: Java's
    nullable references become Option, thrown exceptions become Err. */
module Wrappers {

  datatype Option<+T> = None | Some(value: T)

  datatype Result<+T, +E> = Ok(value: T) | Err(error: E)

  /** The Java exceptions the modelled code can end in. */
  datatype JavaException =
    | NullPointerException
    | IllegalArgumentException
    | DateTimeException
    | RuntimeException(message: string)
}
