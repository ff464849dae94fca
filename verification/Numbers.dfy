/** Natural numbers as the machine sees them: powers of two, single bits, bitwise or. */
module Numbers {
  function Max(a: int, b: int): (m: int) {
    if a >= b then a else b
  }

  function Min(a: nat, b: nat): (m: nat) {
    if a <= b then a else b
  }

  function Pow2(n: nat): (p: nat)
    ensures p > 0
  {
    if n == 0 then 1 else 2 * Pow2(n - 1)
  }

  /** `x & (1 << j) != 0`. */
  predicate BitOf(x: nat, j: nat) {
    if j == 0 then x % 2 == 1 else BitOf(x / 2, j - 1)
  }

  /** `x | (1 << j)`. */
  function WithBit(x: nat, j: nat): (y: nat) {
    if j == 0 then x / 2 * 2 + 1 else 2 * WithBit(x / 2, j - 1) + x % 2
  }

  /** `x | y`. */
  function Or(x: nat, y: nat): (z: nat)
    decreases x
  {
    if x == 0 then y else 2 * Or(x / 2, y / 2) + Max(x % 2, y % 2)
  }

  lemma {:induction false} WithBitBelow(x: nat, j: nat, n: nat)
    requires j < n && x < Pow2(n)
    ensures WithBit(x, j) < Pow2(n)
  {
    if j > 0 {
      WithBitBelow(x / 2, j - 1, n - 1);
    }
  }

  lemma {:induction false} ZeroHasNoBits(j: nat)
    ensures !BitOf(0, j)
  {
    if j > 0 {
      ZeroHasNoBits(j - 1);
    }
  }

  /** Setting a bit sets that bit and no other. */
  lemma {:induction false} WithBitSets(x: nat, a: nat, b: nat)
    ensures BitOf(WithBit(x, a), b) <==> a == b || BitOf(x, b)
  {
    if a > 0 && b > 0 {
      WithBitSets(x / 2, a - 1, b - 1);
    }
  }

  /** A bit of `x | y` is set if and only if it is set in one of them. */
  lemma {:induction false} OrBits(x: nat, y: nat, j: nat)
    ensures BitOf(Or(x, y), j) <==> BitOf(x, j) || BitOf(y, j)
    decreases x
  {
    if x == 0 {
      ZeroHasNoBits(j);
    } else if j > 0 {
      OrBits(x / 2, y / 2, j - 1);
    }
  }

  lemma OrDoubled(x: nat, y: nat)
    ensures Or(x, 2 * y) == 2 * Or(x / 2, y) + x % 2
  {
    assert 2 * y / 2 == y && 2 * y % 2 == 0;
  }

  lemma TimesPow2(y: nat, n: nat)
    requires n > 0
    ensures y * Pow2(n) == 2 * (y * Pow2(n - 1))
  {
  }

  /** Bits that all lie above those of `x` are added to it. */
  lemma {:induction false} OrAdds(x: nat, y: nat, n: nat)
    requires x < Pow2(n)
    ensures Or(x, y * Pow2(n)) == x + y * Pow2(n)
    decreases n
  {
    hide Or;
    if n == 0 {
      assert Or(0, y) == y by { OrZero(y); }
    } else {
      TimesPow2(y, n);
      OrDoubled(x, y * Pow2(n - 1));
      OrAdds(x / 2, y, n - 1);
    }
  }

  lemma OrZero(y: nat)
    ensures Or(0, y) == y
  {
  }

  /** Numbers of `n` bits with the same bits are the same. */
  lemma {:induction false} NumberFromBits(x: nat, y: nat, n: nat)
    requires x < Pow2(n) && y < Pow2(n)
    requires forall j: nat :: j < n ==> (BitOf(x, j) <==> BitOf(y, j))
    ensures x == y
  {
    if n > 0 {
      assert BitOf(x, 0) <==> BitOf(y, 0);
      forall j: nat | j < n - 1
        ensures BitOf(x / 2, j) <==> BitOf(y / 2, j)
      {
        assert BitOf(x, j + 1) <==> BitOf(y, j + 1);
      }
      NumberFromBits(x / 2, y / 2, n - 1);
    }
  }
}
