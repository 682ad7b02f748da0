/** Optional values and the two exceptions the sparse containers raise. */
module Results {

  /** Python's `None` or a present value. */
  datatype Option<+T> = None | Some(value: T) {
    function GetOr(default: T): T {
      match this
      case Some(v) => v
      case None => default
    }
  }

  /** The exceptions raised by the containers themselves. */
  datatype Error =
    | IndexError   // an index outside the logical bounds
    | ValueError   // a length that disagrees with the other dimension

  /** The outcome of a query that may raise. */
  datatype Result<+T> = Ok(value: T) | Err(error: Error)

  /** The outcome of an update that may raise (and then changes nothing). */
  datatype Outcome = Pass | Fail(error: Error)
}
