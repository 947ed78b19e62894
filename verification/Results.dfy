/**
 How calls end: optional values, and panics as an explicit outcome.
 */
module Results {

  datatype Option<+T> = None | Some(value: T)

  /** A panic stops the kernel. */
  datatype Outcome = Done | Panic
}
