/** Failure-carrying results shared by every module of the model. */
module Outcome {

  /** A value that may be absent; `big.Int.ModInverse` returns nil for "absent". */
  datatype Option<+T> = None | Some(value: T)

  /** The distinct ways an operation of the secret-sharing core can fail.
      In the Go program each of these is a panic, except where noted. */
  datatype Error =
    | ThresholdExceedsShares   // constructor: threshold > numShares
    | ThresholdBelowOne        // threshold < 1: the coefficient list has no slot for the secret
    | InsufficientShares       // fewer points than the threshold
    | NoInverse                // a Lagrange denominator is not invertible (duplicate x)
    | NegativeCount            // a share file declares a negative unit or share count
    | MissingField             // a share-file line has fewer space-separated fields than read
    | MalformedCoordinate      // a coordinate token is not a decimal integer
    | PixelIndexOutOfRange     // fewer reconstructed pixels than width * height

  datatype Result<+T> = Success(value: T) | Failure(error: Error)
}
