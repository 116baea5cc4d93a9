/** Monotonicity of products and quotients. */
module Arithmetic {
  lemma MulMonotone(a: nat, b: nat, w: nat)
    requires a <= b
    ensures a * w <= b * w
  {
  }

  lemma DivMonotone(a: nat, b: nat, w: nat)
    requires a <= b && w > 0
    ensures a / w <= b / w
  {
    if a / w > b / w {
      MulMonotone(b / w + 1, a / w, w);
    }
  }
}
