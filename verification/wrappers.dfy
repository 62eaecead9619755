/** The optional result the planner and the constructors return. */
module Wrappers {

  /** Rust's `Option`: `None` is the only failure the planner reports. */
  datatype Option<+T> = None | Some(value: T)
}
