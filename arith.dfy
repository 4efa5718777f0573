/** Euclidean division facts that the solver does not find on its own. */
module Arith {

  lemma MulDiffAtLeast(p: int, q: int, a: int)
    requires p > q && a >= 0
    ensures p * a - q * a >= a
  {
    assert p * a - q * a == (p - q - 1) * a + a;
    assert (p - q - 1) * a >= 0;
  }

  lemma DivModDef(x: int, a: int)
    requires a >= 1
    ensures x == (x / a) * a + x % a && 0 <= x % a < a
  {
  }

  /** Euclidean division is determined by quotient and remainder. */
  lemma DivModUnique(x: int, a: int, q: int, s: int)
    requires a >= 1 && 0 <= s < a && x == q * a + s
    ensures x / a == q && x % a == s
  {
    var q', s' := x / a, x % a;
    DivModDef(x, a);
    if q' > q { MulDiffAtLeast(q', q, a); }
    if q' < q { MulDiffAtLeast(q, q', a); }
  }
}
