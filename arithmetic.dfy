/** Facts about integer division and multiplication shared by the palette
    index computation and the frame layout. */
module Arithmetic {

  /** `a / b` is the bucket of width `b` that holds `a`. */
  lemma DivisionBounds(a: nat, b: nat)
    requires b > 0
    ensures (a / b) * b <= a < (a / b + 1) * b
  {
  }

  /** Multiplying by the same factor keeps the order. */
  lemma MulMonotone(a: nat, b: nat, c: nat)
    requires a <= b
    ensures a * c <= b * c
  {
  }
}
