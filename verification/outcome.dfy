/** Failure-aware wrappers shared by the whole model.
    A Rust `panic!`, a failed `unwrap()` or an out-of-range index aborts the
    game; the model represents that abort as `Panic`, with no recovery. */
module Outcome {

  /** The conventional optional value. */
  datatype Option<+T> = None | Some(value: T)

  /** Either a value or an abort of the whole program. */
  datatype Result<+T> = Ok(value: T) | Panic
}
