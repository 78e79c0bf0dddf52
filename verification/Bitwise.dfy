/** Bitwise operators on natural numbers, as Go's | on unsigned words. */
module Bitwise {

  function Pow2(n: nat): (p: nat)
    ensures p > 0
  {
    if n == 0 then 1 else 2 * Pow2(n - 1)
  }

  function Or(a: nat, b: nat): nat {
    if a == 0 then b
    else if b == 0 then a
    else 2 * Or(a / 2, b / 2) + if a % 2 == 1 || b % 2 == 1 then 1 else 0
  }

  /** Fields that do not overlap add up. */
  lemma {:induction false} OrDisjoint(q: nat, b: nat, k: nat)
    requires b < Pow2(k)
    ensures Or(q * Pow2(k), b) == q * Pow2(k) + b
    decreases k
  {
    var a := q * Pow2(k);
    if k > 0 && a > 0 && b > 0 {
      var h := q * Pow2(k - 1);
      assert a == 2 * h by { assert q * (2 * Pow2(k - 1)) == 2 * (q * Pow2(k - 1)); }
      OrDisjoint(q, b / 2, k - 1);
      HalfOf(a, h);
    }
  }

  lemma HalfOf(a: nat, h: nat)
    requires a == 2 * h
    ensures a / 2 == h && a % 2 == 0
  {
  }

  lemma Pow2Values()
    ensures Pow2(28) == 0x1000_0000 && Pow2(29) == 0x2000_0000 && Pow2(31) == 0x8000_0000
  {
    assert Pow2(8) == 256 && Pow2(16) == 65536;
    assert Pow2(24) == 0x100_0000 by { assert Pow2(20) == 0x10_0000; }
    assert Pow2(28) == 16 * Pow2(24);
  }
}
