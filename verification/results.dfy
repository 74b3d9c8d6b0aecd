/** Failure conditions of the row container, and the result type that carries them. */
module Results {

  /**
   CapacityExceeded: an append to a row that already holds `limit` pieces.
   IndexOutOfBounds: an indexed read or write outside the populated slots.
   */
  datatype Error = CapacityExceeded(limit: nat) | IndexOutOfBounds(index: int, size: nat)

  datatype Result<+T> = Ok(value: T) | Err(error: Error)
}
