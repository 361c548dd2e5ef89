/** Result shapes shared by the evaluator and both executors. */
module Outcomes {

  /** Rust's `Result<T, E>`. */
  datatype Result<+T, +E> = Ok(value: T) | Err(error: E)

  /** What a value-returning computation comes to: it returns a `Result`, or the Rust program
      panics (integer overflow, division by zero, an index out of range, a failed `unwrap`). */
  datatype Outcome<+T, +E> = Returns(result: Result<T, E>) | Panics

  /** What a state-changing computation comes to: the state it leaves behind together with the
      status it reports (an error may follow earlier writes that stay in place), or a panic. */
  datatype Effect<+S, +E> = Leaves(state: S, status: Result<(), E>) | Aborts

  datatype Option<+T> = None | Some(value: T)
}
