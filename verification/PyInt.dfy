// The bit operations of Python's unbounded integers, from the two's complement
// reading: bit i of x is the parity of floor(x / 2^i), also for negative x.
module PyInt {

  predicate Bit(x: int, i: nat)
    decreases i
  {
    if i == 0 then x % 2 == 1 else Bit(x / 2, i - 1)
  }

  function BitAnd(a: nat, b: int): (r: nat)
    ensures r <= a
  {
    if a == 0 then 0
    else (if a % 2 == 1 && b % 2 == 1 then 1 else 0) + 2 * BitAnd(a / 2, b / 2)
  }

  function BitOr(a: nat, b: int): int
  {
    if a == 0 then b
    else (if a % 2 == 1 || b % 2 == 1 then 1 else 0) + 2 * BitOr(a / 2, b / 2)
  }

  function Shl(a: int, k: nat): int
  {
    if k == 0 then a else 2 * Shl(a, k - 1)
  }

  lemma {:induction false} BitOfZero(i: nat)
    ensures !Bit(0, i)
  {
    if i > 0 { BitOfZero(i - 1); }
  }

  lemma {:induction false} BitOfOne(i: nat)
    ensures Bit(1, i) <==> i == 0
  {
    if i > 0 { BitOfZero(i - 1); }
  }

  lemma {:induction false} BitOfAnd(a: nat, b: int, i: nat)
    ensures Bit(BitAnd(a, b), i) <==> Bit(a, i) && Bit(b, i)
  {
    if a == 0 {
      BitOfZero(i);
    } else if i > 0 {
      BitOfAnd(a / 2, b / 2, i - 1);
    }
  }

  lemma {:induction false} BitOfOr(a: nat, b: int, i: nat)
    ensures Bit(BitOr(a, b), i) <==> Bit(a, i) || Bit(b, i)
  {
    if a == 0 {
      BitOfZero(i);
    } else if i > 0 {
      BitOfOr(a / 2, b / 2, i - 1);
    }
  }

  lemma {:induction false} OrIsNat(a: nat, b: nat)
    ensures BitOr(a, b) >= a && BitOr(a, b) >= b
  {
    if a != 0 { OrIsNat(a / 2, b / 2); }
  }

  lemma {:induction false} BitOfShl(a: int, k: nat, i: nat)
    ensures Bit(Shl(a, k), i) <==> i >= k && Bit(a, i - k)
  {
    if k > 0 {
      assert Shl(a, k) / 2 == Shl(a, k - 1);
      if i > 0 { BitOfShl(a, k - 1, i - 1); }
    }
  }

  lemma {:induction false} ShlIsNat(a: nat, k: nat)
    ensures Shl(a, k) >= a
  {
    if k > 0 { ShlIsNat(a, k - 1); }
  }

  /** The test `x & (1 << i) != 0` reads bit i. */
  lemma {:induction false} MaskTest(x: nat, i: nat)
    ensures BitAnd(x, Shl(1, i)) != 0 <==> Bit(x, i)
  {
    if x == 0 {
      BitOfZero(i);
    } else if i == 0 {
      assert Shl(1, 0) == 1;
      AndZero(x / 2);
    } else {
      assert Shl(1, i) / 2 == Shl(1, i - 1) && Shl(1, i) % 2 == 0;
      MaskTest(x / 2, i - 1);
    }
  }

  lemma {:induction false} AndZero(x: nat)
    ensures BitAnd(x, 0) == 0
  {
    if x != 0 { AndZero(x / 2); }
  }

  lemma AndStep(a: nat, b: int)
    ensures BitAnd(a, b) == (if a % 2 == 1 && b % 2 == 1 then 1 else 0) + 2 * BitAnd(a / 2, b / 2)
  {
  }

  lemma {:induction false} OrZero(x: nat)
    ensures BitOr(x, 0) == x
  {
    if x != 0 { OrZero(x / 2); }
  }

  /** x | b stays below a power of two, and is not negative, exactly if b does. */
  lemma {:induction false} OrInRange(x: nat, b: int, width: nat)
    requires x < Shl(1, width)
    ensures 0 <= BitOr(x, b) < Shl(1, width) <==> 0 <= b < Shl(1, width)
  {
    if x != 0 {
      assert Shl(1, width) == 2 * Shl(1, width - 1);
      OrInRange(x / 2, b / 2, width - 1);
    }
  }

  lemma WordWidth()
    ensures Shl(1, 64) == 0x1_0000_0000_0000_0000
  {
    assert Shl(1, 8) == 0x100 by { assert Shl(1, 4) == 16; }
    ShlTimes(8, 8);
    ShlTimes(16, 16);
    ShlTimes(32, 32);
  }

  lemma {:induction false} ShlTimes(k: nat, n: nat)
    ensures Shl(1, k + n) == Shl(1, k) * Shl(1, n)
  {
    if k > 0 {
      ShlTimes(k - 1, n);
      assert 2 * Shl(1, k - 1) * Shl(1, n) == 2 * (Shl(1, k - 1) * Shl(1, n));
    }
  }
}
