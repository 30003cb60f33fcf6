/** Success/failure values standing for Python's return-or-raise. */
module Wrappers {

  datatype Option<+T> = None | Some(value: T) {
    predicate IsFailure() { None? }

    function PropagateFailure<U>(): Option<U>
      requires None?
    {
      None
    }

    function Extract(): T
      requires Some?
    {
      value
    }
  }

  datatype Result<+R, +E> = Success(value: R) | Failure(error: E) {
    predicate IsFailure() { Failure? }

    function PropagateFailure<U>(): Result<U, E>
      requires Failure?
    {
      Failure(error)
    }

    function Extract(): R
      requires Success?
    {
      value
    }
  }
}

/** The exceptions the modelled Python code can raise. */
module Errors {

  datatype Error =
    | SeedLength(length: int)        // ValueError of a 64-character seed check
    | NonHexadecimal(position: nat)  // ValueError of bytes.fromhex, with the offending index
    | IncorrectPadding               // binascii.Error of base64.b32decode
    | NegativeCounter                // ValueError of pyotp for a counter below zero
}
