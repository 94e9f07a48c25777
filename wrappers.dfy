/** Option and Result, the two failure-carrying shapes the codec returns. */
module Wrappers {

  /** An optional value: a frame's declared length, the frame popped from a queue. */
  datatype Option<+T> = None | Some(value: T)

  /** A value or a typed error. */
  datatype Result<+T, +E> = Ok(value: T) | Err(error: E)
}
