/** Powers of two and their logarithm. */
module Powers {
  function Pow2(n: nat): nat {
    if n == 0 then 1 else 2 * Pow2(n - 1)
  }

  lemma {:induction false} Pow2Grows(a: nat, b: nat)
    ensures a <= b <==> Pow2(a) <= Pow2(b)
    ensures 1 <= Pow2(a)
    decreases a + b
  {
    if a > 0 && b > 0 {
      Pow2Grows(a - 1, b - 1);
    } else if a > 0 {
      Pow2Grows(a - 1, b);
    } else if b > 0 {
      Pow2Grows(a, b - 1);
    }
  }

  /** The largest `k` with 2^k <= n. */
  function FloorLog2(n: nat): (k: nat)
    requires 0 < n
    ensures Pow2(k) <= n < Pow2(k + 1)
  {
    if n == 1 then 0 else 1 + FloorLog2(n / 2)
  }
}
