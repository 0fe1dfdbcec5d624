/** What the modules share. */
module Basics {
  datatype Option<+T> = None | Some(value: T)

  type byte = n: int | 0 <= n < 256

  lemma MulMonotone(a: int, b: int, c: nat)
    requires a <= b
    ensures a * c <= b * c
  {
  }
}
