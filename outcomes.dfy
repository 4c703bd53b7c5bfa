/** Failure values of the list: each Java exception the list or its iterator
    throws becomes an `Error`, returned instead of thrown. */
module Outcomes {

  /** The exceptions thrown by the list and its iterator. */
  datatype Error =
    | IndexOutOfBounds        // IndexOutOfBoundsException from the index checks
    | NullPointer             // NullPointerException from Objects.requireNonNull
    | NoSuchElement           // NoSuchElementException from Itr.next
    | IllegalState            // IllegalStateException from Itr.remove
    | ConcurrentModification  // ConcurrentModificationException (fail-fast)

  /** A method that returns a value or throws. */
  datatype Result<T> = Ok(value: T) | Err(error: Error)

  /** A `void` method that returns normally or throws. */
  datatype Outcome = Pass | Fail(error: Error)

  /** A reference argument that may be `null`. */
  datatype Option<T> = None | Some(value: T)
}
