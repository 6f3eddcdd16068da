/** Small arithmetic shared by the byte, decimal, relay and alert modules. */
module Arith {

  function Min(a: nat, b: nat): nat
  {
    if a <= b then a else b
  }

  /** Scaling a positional value by its base: the step the digit and byte readers both take. */
  lemma ShiftDistributes(base: int, x: int, p: int, y: int)
    ensures base * (x + p * y) == base * x + (base * p) * y
    ensures (x * p + y) * base == x * (base * p) + y * base
  {
  }
}
