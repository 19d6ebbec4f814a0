/** Failure values for the exceptions and undefined reads of the modelled C++ code. */
module Errors {

  /** The ways an operation of the core can fail. */
  datatype Error =
    | OutOfRange        // std::out_of_range: a list position or a substring bound past the end
    | RankOutOfRange    // rank1 asked about a position past the end of its bit vector
    | SelectOutOfRange  // select1 asked for a set bit that does not exist

  /** The value of an operation that either returns normally or throws. */
  datatype Result<T> = Ok(value: T) | Err(error: Error)
}
