/** Option and Result datatypes shared by the translator modules. */
module Wrappers {

  /** An optional value: the outcome of a partial operation such as a numeric parse. */
  datatype Option<+T> = None | Some(value: T)

  /** Either a value or the error that stopped the computation. */
  datatype Result<+T, +E> = Ok(value: T) | Err(error: E)
}
