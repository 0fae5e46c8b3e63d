/** The error model both the optimiser and the reported metric use: a value v
    stochastically rounded between two adjacent levels lo <= v <= hi has
    expected squared error (v - lo) * (hi - v). */
module ErrorModel {

  /** Failures the modelled code can reach. */
  datatype Error =
    | IndexOutOfRange  // an index past the end of the codebook
    | NonFiniteRatio   // a division by a zero norm: IEEE-754 gives inf or NaN

  datatype Result<T> = Ok(value: T) | Err(error: Error)

  /** Expected squared error of a value v assigned to the bracket [lo, hi]. */
  function BracketCost(v: real, lo: real, hi: real): (c: real)
    ensures lo <= v <= hi ==> 0.0 <= c
    ensures v == lo || v == hi ==> c == 0.0
  {
    (v - lo) * (hi - v)
  }
}
