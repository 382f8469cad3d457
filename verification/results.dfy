/** Outcome of the steps of `galois_key_generation` that can raise an exception. */
module Results {

  /** The exceptions the deterministic part of key generation can raise. */
  datatype Error =
    | EmptySequence   // padding reads the last element of an empty sequence (an IndexError)
    | NegativeNumber  // the '-' sign of a negative integer is not a digit (a ValueError)

  /** Either a value or the error that stopped the computation. */
  datatype Result<+T> = Ok(value: T) | Err(error: Error)
}
