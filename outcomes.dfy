/** The ways the dilation pipeline can stop without a polygon.  Each one is a
    path on which the scripts raise an exception or, for the midway-node
    search, never stop. */
module Outcomes {

  datatype Error =
    | IterationCap    // the midway-node search did not finish within its step budget
    | ZeroLengthEdge  // a distance to an undilated edge of length zero (ZeroDivisionError)
    | NoNodes         // the first node of an empty node list was read (IndexError)

  datatype Result<T> = Success(value: T) | Failure(error: Error)
  {
    predicate IsFailure() { Failure? }

    function PropagateFailure<U>(): Result<U>
      requires Failure?
    {
      Failure(error)
    }

    function Extract(): T
      requires Success?
    {
      value
    }
  }
}
