// Small result types shared by every component.

module Wrappers {

  datatype Option<+T> = None | Some(value: T)

  newtype Byte = b: int | 0 <= b < 256

  type Bytes = seq<Byte>

  // A value, or the exception that the source raises instead.
  datatype Result<+T> = Ok(value: T) | Raised
  {
    predicate IsFailure() { Raised? }
    function PropagateFailure<U>(): Result<U> requires Raised? { Raised }
    function Extract(): T requires Ok? { value }
  }
}
