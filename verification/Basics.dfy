/** What several modules share. */
module Basics {
  datatype Option<+T> = None | Some(value: T)

  /** size_t arithmetic wraps at this value. */
  const SIZE_MOD: nat := 0x1_0000_0000_0000_0000
}
