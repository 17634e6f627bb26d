/** Python's exceptions and optional values, as the decoding pipeline meets them. */
module Outcomes {

  /** The exceptions the modelled code can raise. */
  datatype Exception = IndexError | ValueError | AttributeError

  /** A call either returns a value or raises an exception. */
  datatype Raises<+T> = Returns(value: T) | Raised(error: Exception)

  datatype Option<+T> = None | Some(value: T)
}
