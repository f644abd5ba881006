/** Rust's `Option` and `Ordering`, as values. */
module Wrappers {

  datatype Option<T> = None | Some(value: T)

  /** `std::cmp::Ordering`. */
  datatype Ordering = Less | Equal | Greater

  /** The ordering of two naturals, as `u8::cmp` or `u32::cmp` computes it. */
  function CmpNat(a: nat, b: nat): (o: Ordering)
    ensures o == Less <==> a < b
    ensures o == Equal <==> a == b
  {
    if a < b then Less else if a == b then Equal else Greater
  }
}
