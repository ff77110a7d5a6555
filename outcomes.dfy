/** Failure-carrying results shared by the containers.
    The library reports errors by throwing std::runtime_error (checked index
    access, insert, erase, swapItems, replace) or std::out_of_range (list
    assignment of a fixed array); the model returns them as values. */
module Outcomes {

  /** The two exception types the containers throw. */
  datatype Error = RuntimeError | OutOfRange

  /** Outcome of an operation that returns nothing in the source. */
  datatype Status = Done | Failed(error: Error)

  /** Outcome of an operation that returns a value in the source. */
  datatype Result<T> = Ok(value: T) | Err(error: Error)

  /** A possibly-absent value: the null pointer returned by a lookup. */
  datatype Option<T> = None | Some(value: T)

  /** Largest value of the source's size_t (64-bit), reached when 0 is decremented. */
  const SizeMax: nat := 0xFFFF_FFFF_FFFF_FFFF
}
