/** Failure kinds of the statistics engine and the Result type that carries them. */
module Results {

  /** The ways a computation of the engine can fail. */
  datatype Error =
    | EmptyDataset     // a ValueError: there are no values to summarise
    | RankOutOfRange   // a ValueError: integer rank outside [0,100] or float rank outside [0.0,1.0]
    | IndexOutOfRange  // an IndexError: interpolation reads one past the last sorted value

  /** Either a computed value or the error that stopped the computation. */
  datatype Result<+T> = Success(value: T) | Failure(error: Error) {

    predicate IsFailure() {
      Failure?
    }

    function PropagateFailure<U>(): Result<U>
      requires Failure?
    {
      Failure(error)
    }

    function Extract(): T
      requires Success?
    {
      value
    }
  }
}
