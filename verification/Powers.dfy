/** Powers of two. */
module Powers {

  ghost function Pow2(n: nat): (r: nat)
    ensures r > 0
  {
    if n == 0 then 1 else 2 * Pow2(n - 1)
  }

  lemma {:induction false} Pow2Monotone(m: nat, n: nat)
    requires m <= n
    ensures Pow2(m) <= Pow2(n)
    decreases n
  {
    if m < n { Pow2Monotone(m, n - 1); }
  }

  lemma {:induction false} Pow2Square(m: nat)
    ensures Pow2(2 * m) == Pow2(m) * Pow2(m)
  {
    if m > 0 {
      Pow2Square(m - 1);
      assert Pow2(2 * m) == 2 * Pow2(2 * m - 1) == 4 * Pow2(2 * (m - 1));
    }
  }

  lemma Pow2Of32()
    ensures Pow2(31) == 0x8000_0000 && Pow2(32) == 0x1_0000_0000
  {
    assert Pow2(2) == 4;
    Pow2Square(2);
    Pow2Square(4);
    Pow2Square(8);
    Pow2Square(16);
  }
}
