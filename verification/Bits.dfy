/** Powers of two and the index of the highest set bit, as the capacity formulas use them. */
module Bits {

  function Pow2(n: nat): (p: nat)
    ensures p > 0
  {
    if n == 0 then 1 else 2 * Pow2(n - 1)
  }

  /** `flsl`: one more than the index of the highest set bit, and 0 for 0. */
  function Flsl(x: nat): nat {
    if x == 0 then 0 else 1 + Flsl(x / 2)
  }

  /** `1 << flsl(x)` is the least power of two above x. */
  lemma {:induction false} FlslBounds(x: nat)
    ensures x < Pow2(Flsl(x))
    ensures x > 0 ==> Flsl(x) > 0 && Pow2(Flsl(x) - 1) <= x
  {
    if x > 1 {
      FlslBounds(x / 2);
    }
  }

  lemma {:induction false} Pow2Monotone(a: nat, b: nat)
    requires a <= b
    ensures Pow2(a) <= Pow2(b)
  {
    if a < b {
      Pow2Monotone(a, b - 1);
    }
  }

  /** The bounds of FlslBounds determine the exponent. */
  lemma FlslUnique(x: nat, k: nat)
    requires x < Pow2(k)
    requires k > 0 ==> Pow2(k - 1) <= x
    ensures Flsl(x) == k
  {
    FlslBounds(x);
    if Flsl(x) < k {
      Pow2Monotone(Flsl(x), k - 1);
    } else if k < Flsl(x) {
      Pow2Monotone(k, Flsl(x) - 1);
    }
  }
}
