/** Powers of two, and division. */
module Arithmetic {

  function Pow2(k: nat): (r: nat)
    ensures r > 0
  {
    if k == 0 then 1 else 2 * Pow2(k - 1)
  }

  lemma {:induction false} Pow2Sum(j: nat, k: nat)
    ensures Pow2(j + k) == Pow2(j) * Pow2(k)
  {
    if j > 0 {
      Pow2Sum(j - 1, k);
    }
  }

  lemma {:induction false} Pow2Grows(j: nat, k: nat)
    requires j <= k
    ensures Pow2(j) <= Pow2(k)
    decreases k - j
  {
    if j < k {
      Pow2Grows(j, k - 1);
    }
  }

  lemma Pow2Values()
    ensures Pow2(23) == 0x80_0000 && Pow2(32) == 0x1_0000_0000
  {
    assert Pow2(8) == 0x100;
    Pow2Sum(8, 8);
    Pow2Sum(16, 16);
    assert Pow2(7) == 0x80;
    Pow2Sum(16, 7);
  }

  lemma Pow2Of52()
    ensures Pow2(52) == 0x10_0000_0000_0000
  {
    assert Pow2(4) == 16;
    Pow2Sum(4, 4);
    Pow2Sum(4, 8);
    Pow2Sum(1, 12);
    Pow2Sum(13, 13);
    Pow2Sum(26, 26);
  }

  lemma Multiples(d: int, m: nat)
    ensures d > 0 ==> d * m >= m
    ensures d < 0 ==> d * m <= -(m as int)
  {
  }

  lemma DivModUnique(a: int, m: nat, q: int, r: int)
    requires m > 0 && a == q * m + r && 0 <= r < m
    ensures a / m == q && a % m == r
  {
    var d := a / m - q;
    assert d * m == r - a % m;
    Multiples(d, m);
  }
}
