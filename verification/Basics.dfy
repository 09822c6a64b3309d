/** Declarations that belong to no component. */
module Basics {
  /** An optional value: an address that may be null, a search that may fail, a reply that may not be sent. */
  datatype Option<+T> = None | Some(value: T)

  type byte = x: int | 0 <= x < 256

  function Min(a: nat, b: nat): (m: nat)
    ensures m <= a && m <= b && (m == a || m == b)
  {
    if a <= b then a else b
  }
}
