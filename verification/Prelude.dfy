/** Values that the timers, the scheduler and the I/O manager share. */
module Prelude {
  datatype Option<+T> = None | Some(value: T)

  /** A std::function, by identity. */
  type Callback = nat
}
