/** How many parameters a batch statement may have, and the arithmetic of chunk sizes. */
module BatchLimits {

  const PARAMETER_LIMIT := 30000

  lemma Divide(n: nat, d: nat)
    requires d > 0
    ensures n / d * d <= n < (n / d + 1) * d && (n / d >= 1 <==> d <= n)
  {
  }

  lemma Scale(a: nat, b: nat, k: nat)
    requires a <= b
    ensures a * k <= b * k
  {
  }
}
