// Bitwise "or" on natural numbers, bit by bit.
module Bits {
  function BitOr(p: nat, q: nat): nat {
    if p == 0 then q else if q == 0 then p
    else 2 * BitOr(p / 2, q / 2) + (if p % 2 == 1 || q % 2 == 1 then 1 else 0)
  }

  function Pow2(n: nat): nat {
    if n == 0 then 1 else 2 * Pow2(n - 1)
  }

  lemma Pow2Values()
    ensures Pow2(1) == 2 && Pow2(9) == 0x200
    ensures Pow2(29) == 0x2000_0000 && Pow2(30) == 0x4000_0000 && Pow2(32) == 0x1_0000_0000
  {
    assert Pow2(9) == 0x200;
    assert Pow2(18) == 0x4_0000;
    assert Pow2(27) == 0x800_0000;
    assert Pow2(29) == 4 * Pow2(27);
    assert Pow2(30) == 2 * Pow2(29);
    assert Pow2(32) == 4 * Pow2(30);
  }

  lemma {:induction false} BitOrBounds(p: nat, q: nat, n: nat)
    requires p < Pow2(n) && q < Pow2(n)
    ensures p <= BitOr(p, q) < Pow2(n) && q <= BitOr(p, q)
  {
    if p != 0 && q != 0 {
      BitOrBounds(p / 2, q / 2, n - 1);
    }
  }

  lemma Halved(h: nat, b: nat)
    requires b < 2
    ensures (2 * h + b) % 2 == b
  {}

  lemma BitOrParity(p: nat, q: nat)
    ensures BitOr(p, q) % 2 == (if p % 2 == 1 || q % 2 == 1 then 1 else 0)
  {
    if p != 0 && q != 0 {
      Halved(BitOr(p / 2, q / 2), if p % 2 == 1 || q % 2 == 1 then 1 else 0);
    }
  }

  lemma BitOrOne(p: nat)
    ensures BitOr(p, 1) == p + 1 - p % 2
  {
    if p != 0 {
      assert BitOr(p / 2, 0) == p / 2;
    }
  }
}
