/** Powers of two and binary logarithms. */
module Powers {
  function Pow2(k: nat): nat {
    if k == 0 then 1 else 2 * Pow2(k - 1)
  }

  lemma {:induction false} PowPositive(k: nat)
    ensures Pow2(k) >= 1
  {
    if k > 0 {
      PowPositive(k - 1);
    }
  }

  function FloorLog2(n: nat): (k: nat)
    requires 0 < n
    ensures Pow2(k) <= n < Pow2(k + 1)
  {
    if n == 1 then 0 else 1 + FloorLog2(n / 2)
  }

  lemma {:induction false} LogIsMonotonic(n: nat, k: nat)
    requires 0 < n && n <= k
    ensures FloorLog2(n) <= FloorLog2(k)
  {
    if 1 < n {
      LogIsMonotonic(n / 2, k / 2);
    }
  }

  lemma {:induction false} LogOfHalf(n: nat, k: nat)
    requires k <= n / 2
    ensures 0 < k ==> 0 < n && FloorLog2(k) + 1 <= FloorLog2(n)
  {
    if 0 < k {
      LogIsMonotonic(k, n / 2);
    }
  }
}
