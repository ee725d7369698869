/** Failure-compatible wrappers used for the converter's error paths. */
module Wrappers {

  datatype Option<+T> = None | Some(value: T) {
    predicate IsFailure() { None? }

    function PropagateFailure<U>(): Option<U>
      requires None?
    {
      None
    }

    function Extract(): T
      requires Some?
    {
      value
    }

    /** Converts None into a Failure carrying `error`. */
    function ToResult<E>(error: E): Result<T, E>
    {
      match this
      case Some(v) => Success(v)
      case None => Failure(error)
    }
  }

  datatype Result<+R, +E> = Success(value: R) | Failure(error: E) {
    predicate IsFailure() { Failure? }

    function PropagateFailure<U>(): Result<U, E>
      requires Failure?
    {
      Failure(error)
    }

    function Extract(): R
      requires Success?
    {
      value
    }
  }
}

/** The ways a conversion request can be refused; each aborts the request with no output. */
module Errors {

  datatype Error =
    | UnsupportedBayerOrder(name: string)                 // a name outside the Bayer-order table
    | InvalidBufferLength(size: nat)                      // byte count not a multiple of 5
    | ShapeMismatch(pixels: nat, height: nat, width: nat) // height * width != number of pixels
}
