/** Bitwise operations of unsigned machine words, on natural numbers. */
module Bits {
  import opened Arith

  /** x ^ y */
  function Xor(x: nat, y: nat): (z: nat)
    decreases x + y
  {
    if x == 0 && y == 0 then 0 else 2 * Xor(x / 2, y / 2) + (x + y) % 2
  }

  /** x | y */
  function Or(x: nat, y: nat): (z: nat)
    decreases x + y
  {
    if x == 0 && y == 0 then 0
    else 2 * Or(x / 2, y / 2) + (if x % 2 == 1 || y % 2 == 1 then 1 else 0)
  }

  /** x >> n */
  function Shr(x: nat, n: nat): nat {
    if n == 0 then x else Shr(x / 2, n - 1)
  }

  /** x << n, before the result is cut to the word size */
  function Shl(x: nat, n: nat): nat {
    if n == 0 then x else 2 * Shl(x, n - 1)
  }

  lemma {:induction false} ShrIsDiv(x: nat, n: nat)
    ensures Shr(x, n) == x / Pow2(n)
  {
    if n > 0 {
      ShrIsDiv(x / 2, n - 1);
      DivDiv(x, 2, Pow2(n - 1));
    }
  }

  lemma {:induction false} ShlIsMul(x: nat, n: nat)
    ensures Shl(x, n) == x * Pow2(n)
  {
    if n > 0 {
      ShlIsMul(x, n - 1);
      Associate(x, 2, Pow2(n - 1));
    }
  }

  lemma {:induction false} ShrAdd(x: nat, m: nat, n: nat)
    ensures Shr(Shr(x, m), n) == Shr(x, m + n)
  {
    if m > 0 {
      ShrAdd(x / 2, m - 1, n);
    }
  }

  lemma HalfOf(z: nat, h: nat, b: nat)
    requires z == 2 * h + b && b < 2
    ensures z / 2 == h && z % 2 == b
  {
  }

  lemma XorStep(x: nat, y: nat)
    ensures Xor(x, y) / 2 == Xor(x / 2, y / 2)
    ensures Xor(x, y) % 2 == (x + y) % 2
  {
    HalfOf(Xor(x, y), Xor(x / 2, y / 2), (x + y) % 2);
  }

  lemma ParityCancels(z: nat, x: nat, y: nat)
    requires z % 2 == (x + y) % 2
    ensures (z + y) % 2 == x % 2
  {
  }

  lemma {:induction false} XorCancels(x: nat, y: nat)
    ensures Xor(Xor(x, y), y) == x
    decreases x + y
  {
    if x == 0 && y == 0 {
      assert Xor(0, 0) == 0;
    } else {
      hide Xor;
      XorCancels(x / 2, y / 2);
      XorStep(x, y);
      XorStep(Xor(x, y), y);
      ParityCancels(Xor(x, y), x, y);
    }
  }

  lemma {:induction false} XorZero(x: nat)
    ensures Xor(x, 0) == x == Xor(0, x)
  {
    if x != 0 {
      XorZero(x / 2);
    }
  }

  lemma {:induction false} XorShift(x: nat, y: nat, n: nat)
    ensures Shr(Xor(x, y), n) == Xor(Shr(x, n), Shr(y, n))
  {
    if n > 0 {
      XorStep(x, y);
      XorShift(x / 2, y / 2, n - 1);
    }
  }

  lemma {:induction false} OrZero(x: nat)
    ensures Or(x, 0) == x == Or(0, x)
  {
    if x != 0 {
      OrZero(x / 2);
    }
  }

  lemma {:induction false} OrSelf(x: nat)
    ensures Or(x, x) == x
  {
    if x != 0 {
      OrSelf(x / 2);
    }
  }

  /** Or of words with no common bit is their sum. */
  lemma {:induction false} OrDisjoint(x: nat, y: nat, n: nat)
    requires x < Pow2(n)
    ensures Or(x, Shl(y, n)) == x + Shl(y, n)
  {
    var z := Shl(y, n);
    if n == 0 {
      OrZero(z);
    } else if x != 0 || z != 0 {
      OrDisjoint(x / 2, y, n - 1);
      HalfOf(z, Shl(y, n - 1), 0);
    }
  }
}
