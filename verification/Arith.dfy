/** Elementary facts about products, remainders and powers of two. */
module Arith {

  /** How many values a 32-bit word has. */
  const WORD32: int := 0x1_0000_0000

  lemma Distribute(a: int, b: int, c: int)
    ensures a * (b + c) == a * b + a * c
  {
  }

  lemma Associate(a: int, b: int, c: int)
    ensures a * (b * c) == (a * b) * c
  {
  }

  lemma ProductAtLeast(m: int, d: int)
    requires m > 0
    ensures d >= 1 ==> m * d >= m
    ensures d <= -1 ==> m * d <= -m
  {
  }

  /** Quotient and remainder are unique. */
  lemma DivModUnique(n: int, m: int, q: int, r: int)
    requires m > 0 && 0 <= r < m && n == m * q + r
    ensures n / m == q && n % m == r
  {
    Distribute(m, n / m, -q);
    ProductAtLeast(m, n / m - q);
  }

  lemma Division(n: nat, m: nat) returns (q: nat, r: nat)
    requires m > 0
    ensures n == m * q + r && r < m && n / m == q && n % m == r
  {
    q, r := n / m, n % m;
  }

  lemma QuotientBelow(v: nat, p: nat, t: nat)
    requires p > 0 && v < p * t
    ensures v / p < t
  {
    var q, r := Division(v, p);
    if q >= t {
      Distribute(p, q - t, t);
      MulNonneg(p, q - t);
      assert false;
    }
  }

  function Clamp(v: int, lo: int, hi: int): int { if v < lo then lo else if v > hi then hi else v }

  /** Conversion of a real to an integer truncates towards zero. */
  function Truncate(r: real): int { if r >= 0.0 then r.Floor else -((-r).Floor) }

  function Abs(r: real): real { if r < 0.0 then -r else r }

  lemma MulPositive(a: nat, b: nat)
    ensures a * b >= 0 && (a > 0 && b > 0 ==> a * b > 0)
  {
  }

  ghost function Pow(a: nat, n: nat): (p: nat)
    ensures a > 0 ==> p > 0
  {
    if n == 0 then 1 else MulPositive(a, Pow(a, n - 1)); a * Pow(a, n - 1)
  }

  lemma {:induction false} PowAdd(a: nat, m: nat, n: nat)
    ensures Pow(a, m + n) == Pow(a, m) * Pow(a, n)
  {
    if m > 0 {
      PowAdd(a, m - 1, n);
      Associate(a, Pow(a, m - 1), Pow(a, n));
    }
  }

  function Pow2(n: nat): (p: nat)
    ensures p > 0
  {
    if n == 0 then 1 else 2 * Pow2(n - 1)
  }

  lemma {:induction false} Pow2Add(m: nat, n: nat)
    ensures Pow2(m + n) == Pow2(m) * Pow2(n)
  {
    if n > 0 {
      Pow2Add(m, n - 1);
      Associate(Pow2(m), 2, Pow2(n - 1));
    }
  }

  lemma Pow2Small()
    ensures Pow2(1) == 2 && Pow2(2) == 4 && Pow2(3) == 8
  {
    assert Pow2(1) == 2 * Pow2(0);
  }

  lemma Pow2Values()
    ensures Pow2(5) == 32 && Pow2(18) == 0x4_0000 && Pow2(27) == 0x800_0000
    ensures Pow2(32) == 0x1_0000_0000
    ensures Pow2(59) == 0x800_0000_0000_0000
    ensures Pow2(64) == 0x1_0000_0000_0000_0000
  {
    hide Pow2;
    Pow2Small();
    Pow2Add(2, 2); Pow2Add(2, 3); Pow2Add(4, 4); Pow2Add(8, 8); Pow2Add(16, 16); Pow2Add(32, 32);
    Pow2Add(16, 2); Pow2Add(8, 3); Pow2Add(16, 11); Pow2Add(32, 27);
  }

  /** Shifting by m + n places is shifting by m, then by n. */
  lemma DivDiv(x: nat, m: nat, n: nat)
    requires m > 0 && n > 0
    ensures m * n > 0
    ensures x / (m * n) == (x / m) / n
  {
    var q, r := x / m, x % m;
    var qq, rr := q / n, q % n;
    Distribute(m, n * qq, rr);
    Associate(m, n, qq);
    ProductAtLeast(m, n - 1 - rr);
    Distribute(m, n - 1, -rr);
    Distribute(m, n, -1);
    MulNonneg(m, rr);
    DivModUnique(x, m * n, qq, m * rr + r);
  }

  lemma MulNonneg(a: nat, b: nat)
    ensures a * b >= 0
  {
  }
}
