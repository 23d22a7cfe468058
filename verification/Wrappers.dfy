/** The failure-carrying datatypes and the byte types shared by every module. */
module Wrappers {

  datatype Option<+T> = None | Some(value: T)

  /** A value, or a thrown error. */
  datatype Result<+T> = Success(value: T) | Failure
  {
    predicate IsFailure() {
      Failure?
    }

    function PropagateFailure<U>(): Result<U>
      requires Failure?
    {
      Failure
    }

    function Extract(): T
      requires Success?
    {
      value
    }
  }

  type Byte = b: int | 0 <= b < 256

  type Bytes = seq<Byte>
}
