/** Arithmetic shared by the slices of a file and the windows of a rate limit. */
module Arithmetic {
  lemma ProductMonotone(a: int, b: int, d: nat)
    requires a <= b
    ensures a * d <= b * d
  {}
}
