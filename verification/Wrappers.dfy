/** Small shared definitions. */
module Wrappers {
  /** A value that may be absent: the model of a pointer that may be NULL. */
  datatype Option<+T> = None | Some(value: T)

  /** The size of a tar block. */
  const TARRECORDSIZE := 512

  /** The signal flag as a loop sees it at its i-th look; once raised it stays. */
  predicate Raised(signal: Option<nat>, i: nat)
  {
    signal.Some? && signal.value <= i
  }
}
