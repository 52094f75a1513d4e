/** The source's `Option` (and the `Ordering` of `Ord::cmp`). */
module Wrappers {

  datatype Option<+T> = None | Some(value: T)

  datatype Ordering = Less | Equal | Greater

  /** The order of two natural numbers, as `u64::cmp` reports it. */
  function CompareNat(x: nat, y: nat): Ordering {
    if x < y then Less else if x == y then Equal else Greater
  }
}
