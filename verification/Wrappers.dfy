/** Results that may be missing. */
module Wrappers {
  datatype Option<+T> = None | Some(value: T)

  /** A parse step either fails or yields a value and the position behind what it has read. */
  datatype Parsed<+T> = Fail | Ok(value: T, next: nat)
}
